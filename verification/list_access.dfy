/** Reading and writing a `compact_forward_list` through its iterators and
    proxies, and comparing two lists.

    An iterator is just a node index (`iterator_base::index`); `begin()`
    holds the first-element head, `end()` holds 0, and `++` loads the next
    field of the current index. A proxy is a node index whose conversion
    loads the node's value and whose assignment stores it. */
module ListAccess {
  import opened Bits
  import opened Layout
  import opened Chains
  import CompactList
  import opened PackedList

  // ---------------------------------------------------------------------
  // Iterators

  /** `begin()`: an iterator at the first-element head. */
  function Begin(sh: Shape, data: seq<bool>): nat
    requires Sized(sh, data)
  {
    LoadFirstIndex(sh, data)
  }

  /** `end()`: the iterator at index 0. */
  function End(): nat
  {
    0
  }

  /** `operator++`: the next field of the current index. */
  function Increment(sh: Shape, data: seq<bool>, index: nat): nat
    requires Sized(sh, data) && index <= sh.maxSize
  {
    LoadIndex(sh, data, index)
  }

  /** The index an iterator holds after `k` increments from `begin()`: the
      `k`-th node, or 0 (`end()`) once past the last one. */
  function Step(sh: Shape, data: seq<bool>, k: nat): (index: nat)
    requires PackedList.Valid(sh, data) && k <= |Elements(sh, data)|
    ensures index <= sh.maxSize
  {
    NodeAt(sh, Decode(sh, data), k)
  }

  /** The `k`-th node of a valid view, or 0 past the last; only the step
      past the last node gives 0. */
  function NodeAt(sh: Shape, w: View, k: nat): (index: nat)
    requires CompactList.Valid(sh, w) && k <= |CompactList.LiveNodes(sh, w)|
    ensures index <= sh.maxSize
    ensures index == 0 <==> k == |CompactList.LiveNodes(sh, w)|
  {
    var l := CompactList.LiveNodes(sh, w);
    if k < |l| then l[k] else 0
  }

  /** No node occurs twice in the list. */
  lemma NodesApart(sh: Shape, w: View, j: nat, k: nat)
    requires CompactList.Valid(sh, w)
    requires j <= |CompactList.LiveNodes(sh, w)| && k <= |CompactList.LiveNodes(sh, w)|
    ensures NodeAt(sh, w, j) == NodeAt(sh, w, k) <==> j == k
  {
    CompactList.Expose(sh, w);
  }

  /** The first-element head holds the first node (0 for the empty list). */
  lemma FirstNode(sh: Shape, w: View)
    requires CompactList.Valid(sh, w)
    ensures w.links[0] == NodeAt(sh, w, 0)
  {
    CompactList.HeadFacts(sh, w);
  }

  /** The next field of the `k`-th node holds the `k + 1`-th node. */
  lemma NodeLinks(sh: Shape, w: View, k: nat)
    requires CompactList.Valid(sh, w) && k < |CompactList.LiveNodes(sh, w)|
    ensures w.links[NodeAt(sh, w, k)] == NodeAt(sh, w, k + 1)
  {
    CompactList.NextOf(sh, w, k);
  }

  /** The value of the `k`-th node is the `k`-th element. */
  lemma NodeValue(sh: Shape, w: View, k: nat)
    requires CompactList.Valid(sh, w) && k < |CompactList.Elements(sh, w)|
    ensures 1 <= NodeAt(sh, w, k) && w.vals[NodeAt(sh, w, k) - 1] == CompactList.Elements(sh, w)[k]
  {
  }

  /** `begin()` is the first step, and it equals `end()` exactly for the
      empty list. */
  lemma BeginIsFirstStep(sh: Shape, data: seq<bool>)
    requires PackedList.Valid(sh, data)
    ensures Begin(sh, data) == Step(sh, data, 0)
    ensures Begin(sh, data) == End() <==> Elements(sh, data) == []
  {
    FirstNode(sh, Decode(sh, data));
  }

  /** Incrementing the iterator at step `k` reaches step `k + 1`: after the
      last node comes `end()`. */
  lemma IncrementSteps(sh: Shape, data: seq<bool>, k: nat)
    requires PackedList.Valid(sh, data) && k < |Elements(sh, data)|
    ensures Increment(sh, data, Step(sh, data, k)) == Step(sh, data, k + 1)
  {
    NodeLinks(sh, Decode(sh, data), k);
  }

  /** Incrementing `end()` loads the next field of index 0, which is the
      first-element head: it wraps around to `begin()`. */
  lemma IncrementEndIsBegin(sh: Shape, data: seq<bool>)
    requires Sized(sh, data)
    ensures Increment(sh, data, End()) == Begin(sh, data)
  {
  }

  /** Iterator `==` compares indices only; inside one list two iterators
      reached from `begin()` are equal exactly when they took the same
      number of steps, because no node occurs twice. */
  lemma SameIndexSameStep(sh: Shape, data: seq<bool>, j: nat, k: nat)
    requires PackedList.Valid(sh, data) && j <= |Elements(sh, data)| && k <= |Elements(sh, data)|
    ensures Step(sh, data, j) == Step(sh, data, k) <==> j == k
  {
    NodesApart(sh, Decode(sh, data), j, k);
  }

  /** Dereferencing the iterator at step `k` reads the `k`-th value. */
  lemma ReadSteps(sh: Shape, data: seq<bool>, k: nat)
    requires PackedList.Valid(sh, data) && k < |Elements(sh, data)|
    ensures 1 <= Step(sh, data, k) && Get(sh, data, Step(sh, data, k)) == Elements(sh, data)[k]
  {
    NodeValue(sh, Decode(sh, data), k);
  }

  /** A range-for over the list: collects `*it` from `begin()` until
      `end()`, which yields exactly the list's values. */
  method Traverse(sh: Shape, data: seq<bool>) returns (values: seq<nat>)
    requires PackedList.Valid(sh, data)
    ensures values == Elements(sh, data)
  {
    ghost var w := Decode(sh, data);
    ghost var e := CompactList.Elements(sh, w);
    values := [];
    var it := Begin(sh, data);
    FirstNode(sh, w);
    ghost var k := 0;
    while it != End()
      invariant k <= |e| && it == NodeAt(sh, w, k) && values == e[..k]
      decreases |e| - k
    {
      NodeValue(sh, w, k);
      NodeLinks(sh, w, k);
      values := values + [Get(sh, data, it)];
      PrefixStep(e, k);
      it := Increment(sh, data, it);
      k := k + 1;
    }
  }

  // ---------------------------------------------------------------------
  // Proxies

  /** The proxy's conversion to `value_type`: the value of node `index`. */
  function Get(sh: Shape, data: seq<bool>, index: nat): (v: nat)
    requires Sized(sh, data) && 1 <= index <= sh.maxSize
    ensures v == Decode(sh, data).vals[index - 1] && v < Pow2(sh.ValueBits())
  {
    LoadValue(sh, data, index)
  }

  /** The proxy's `operator=(value_type)`: stores `value` (cut to the value
      width) as node `index`'s value; every other field keeps its value, so
      the list's chains are untouched. */
  function Set(sh: Shape, data: seq<bool>, index: nat, value: nat): (r: seq<bool>)
    requires Sized(sh, data) && 1 <= index <= sh.maxSize
    ensures Sized(sh, r)
    ensures Decode(sh, r) == Decode(sh, data).Put(Value(index), CompactList.Fit(sh, value))
  {
    StoreValue(sh, data, index, value)
  }

  /** In a valid view, replacing the value of the `k`-th node replaces the
      `k`-th element and nothing else; the chains are unchanged. */
  lemma ValuesSet(sh: Shape, w: View, k: nat, x: nat)
    requires CompactList.Valid(sh, w) && k < |CompactList.LiveNodes(sh, w)|
    ensures var l, w' := CompactList.LiveNodes(sh, w), w.Put(Value(NodeAt(sh, w, k)), x);
      CompactList.Valid(sh, w') && CompactList.LiveNodes(sh, w') == l &&
      CompactList.FreeNodes(sh, w') == CompactList.FreeNodes(sh, w) &&
      CompactList.Elements(sh, w') == CompactList.Elements(sh, w)[k := x]
  {
    var w' := w.Put(Value(NodeAt(sh, w, k)), x);
    SetKeepsChains(sh, w, k, x);
    var e, e' := CompactList.Elements(sh, w), CompactList.Elements(sh, w');
    forall j | 0 <= j < |e|
      ensures e'[j] == e[k := x][j]
    {
      NodeValue(sh, w, j);
      NodeValue(sh, w', j);
      NodesApart(sh, w, j, k);
    }
  }

  /** Changing a value leaves both chains of a valid view as they are. */
  lemma SetKeepsChains(sh: Shape, w: View, k: nat, x: nat)
    requires CompactList.Valid(sh, w) && k < |CompactList.LiveNodes(sh, w)|
    ensures var w' := w.Put(Value(NodeAt(sh, w, k)), x);
      CompactList.Valid(sh, w') && CompactList.LiveNodes(sh, w') == CompactList.LiveNodes(sh, w) &&
      CompactList.FreeNodes(sh, w') == CompactList.FreeNodes(sh, w)
  {
    var l := CompactList.LiveNodes(sh, w);
    CompactList.Expose(sh, w);
    CompactList.Establish(sh, w.Put(Value(l[k]), x), l, CompactList.FreeNodes(sh, w));
  }

  /** Writing through the proxy of the `k`-th node replaces the `k`-th value
      of the list and nothing else. */
  lemma SetReplaces(sh: Shape, data: seq<bool>, k: nat, value: nat)
    requires PackedList.Valid(sh, data) && k < |Elements(sh, data)|
    ensures var r := Set(sh, data, Step(sh, data, k), value);
      PackedList.Valid(sh, r) && Elements(sh, r) == Elements(sh, data)[k := CompactList.Fit(sh, value)]
  {
    ValuesSet(sh, Decode(sh, data), k, CompactList.Fit(sh, value));
  }

  /** The proxy's `operator=(const proxy&)`: copies the value of node
      `other` into node `index`. */
  function Assign(sh: Shape, data: seq<bool>, index: nat, other: nat): (r: seq<bool>)
    requires Sized(sh, data) && 1 <= index <= sh.maxSize && 1 <= other <= sh.maxSize
    ensures Sized(sh, r)
    ensures var w := Decode(sh, data); Decode(sh, r) == w.Put(Value(index), w.vals[other - 1])
  {
    var v := Get(sh, data, other);
    ModBelow(v, Pow2(sh.ValueBits()));
    Set(sh, data, index, v)
  }

  /** `swap(first, second)` on two proxies: keep the first value, assign the
      second to the first, then store the kept value in the second. The two
      values trade places and every other field stays. */
  function Swap(sh: Shape, data: seq<bool>, first: nat, second: nat): (r: seq<bool>)
    requires Sized(sh, data) && 1 <= first <= sh.maxSize && 1 <= second <= sh.maxSize
    ensures Sized(sh, r)
    ensures var w := Decode(sh, data);
      Decode(sh, r) == w.Put(Value(first), w.vals[second - 1]).Put(Value(second), w.vals[first - 1])
  {
    var firstValue := Get(sh, data, first);
    ModBelow(firstValue, Pow2(sh.ValueBits()));
    var d1 := Assign(sh, data, first, second);
    Set(sh, d1, second, firstValue)
  }

  /** In a valid view, trading the values of the `j`-th and `k`-th nodes
      trades the `j`-th and `k`-th elements; the chains are unchanged. */
  lemma ValuesSwap(sh: Shape, w: View, j: nat, k: nat)
    requires CompactList.Valid(sh, w) && j < |CompactList.LiveNodes(sh, w)| && k < |CompactList.LiveNodes(sh, w)|
    ensures var e, a, b := CompactList.Elements(sh, w), NodeAt(sh, w, j), NodeAt(sh, w, k);
      var w' := w.Put(Value(a), w.vals[b - 1]).Put(Value(b), w.vals[a - 1]);
      CompactList.Valid(sh, w') && CompactList.Elements(sh, w') == e[j := e[k]][k := e[j]]
  {
    var e := CompactList.Elements(sh, w);
    var a, b := NodeAt(sh, w, j), NodeAt(sh, w, k);
    NodeValue(sh, w, j);
    NodeValue(sh, w, k);
    ValuesSet(sh, w, j, e[k]);
    var w1 := w.Put(Value(a), e[k]);
    NodeValue(sh, w1, k);
    ValuesSet(sh, w1, k, e[j]);
  }

  /** Swapping the proxies of the `j`-th and `k`-th nodes exchanges the
      `j`-th and `k`-th values of the list. */
  lemma SwapExchanges(sh: Shape, data: seq<bool>, j: nat, k: nat)
    requires PackedList.Valid(sh, data) && j < |Elements(sh, data)| && k < |Elements(sh, data)|
    ensures var r, e := Swap(sh, data, Step(sh, data, j), Step(sh, data, k)), Elements(sh, data);
      PackedList.Valid(sh, r) && Elements(sh, r) == e[j := e[k]][k := e[j]]
  {
    ValuesSwap(sh, Decode(sh, data), j, k);
  }

  // ---------------------------------------------------------------------
  // Equality

  /** `operator==`: `std::equal` over both ranges, stepping two iterators in
      lockstep, false at the first differing value, and true only when both
      reach `end()` together. Two lists are equal exactly when they hold the
      same values in the same order. */
  method Equal(sh: Shape, a: seq<bool>, b: seq<bool>) returns (eq: bool)
    requires PackedList.Valid(sh, a) && PackedList.Valid(sh, b)
    ensures eq <==> Elements(sh, a) == Elements(sh, b)
  {
    ghost var wa, wb := Decode(sh, a), Decode(sh, b);
    ghost var ea, eb := CompactList.Elements(sh, wa), CompactList.Elements(sh, wb);
    var i1, i2 := Begin(sh, a), Begin(sh, b);
    FirstNode(sh, wa);
    FirstNode(sh, wb);
    ghost var k := 0;
    while i1 != End() && i2 != End()
      invariant k <= |ea| && k <= |eb| && i1 == NodeAt(sh, wa, k) && i2 == NodeAt(sh, wb, k)
      invariant ea[..k] == eb[..k]
      decreases |ea| - k
    {
      NodeValue(sh, wa, k);
      NodeValue(sh, wb, k);
      if Get(sh, a, i1) != Get(sh, b, i2) {
        assert ea[k] != eb[k];
        return false;
      }
      PrefixGrows(ea, eb, k);
      NodeLinks(sh, wa, k);
      NodeLinks(sh, wb, k);
      i1 := Increment(sh, a, i1);
      i2 := Increment(sh, b, i2);
      k := k + 1;
    }
    eq := i1 == End() && i2 == End();
    if eq {
      assert ea == ea[..k] && eb == eb[..k];
    } else {
      assert |ea| != |eb|;
    }
  }

  /** Equal prefixes followed by equal elements make longer equal
      prefixes. */
  lemma PrefixGrows(s: seq<nat>, t: seq<nat>, k: nat)
    requires k < |s| && k < |t| && s[..k] == t[..k] && s[k] == t[k]
    ensures s[..k + 1] == t[..k + 1]
  {
    PrefixStep(s, k);
    PrefixStep(t, k);
  }

  /** A prefix one longer adds the next element. */
  lemma PrefixStep(s: seq<nat>, k: nat)
    requires k < |s|
    ensures s[..k + 1] == s[..k] + [s[k]]
  {
  }
}
