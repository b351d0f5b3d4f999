/** `compact_forward_list` on its bit buffer.

    Each operation performs the source's `load_*`/`store_*` calls, in the
    source's order, on the buffer itself. Because every load reads the
    decoded field (`LoadDecode`) and every store changes exactly one decoded
    field (`StoreField`), decoding the resulting buffer gives the result of
    the same operation on the decoded view, whose behaviour module
    CompactList establishes. */
module PackedList {
  import opened Bits
  import opened Layout
  import opened Chains
  import CompactList

  /** A buffer of `bit_size` bits for the shape. */
  predicate Sized(sh: Shape, data: seq<bool>)
  {
    sh.Valid() && |data| == sh.BitSize()
  }

  /** A buffer holding a well-formed list. */
  predicate Valid(sh: Shape, data: seq<bool>)
  {
    Sized(sh, data) && CompactList.Valid(sh, Decode(sh, data))
  }

  /** The values of the list, front to back. */
  function Elements(sh: Shape, data: seq<bool>): seq<nat>
    requires Valid(sh, data)
  {
    CompactList.Elements(sh, Decode(sh, data))
  }

  // ---------------------------------------------------------------------
  // The field accessors: each reads or writes one decoded field

  /** `load_index(index)`: the next field of `index`. */
  function LoadIndex(sh: Shape, data: seq<bool>, index: nat): (r: nat)
    requires Sized(sh, data) && index <= sh.maxSize
    ensures r == Decode(sh, data).links[index]
  {
    LoadDecode(sh, data, Link(index));
    LoadField(sh, data, Link(index))
  }

  /** `load_free_index()`: the free-list head. */
  function LoadFreeIndex(sh: Shape, data: seq<bool>): (r: nat)
    requires Sized(sh, data)
    ensures r == Decode(sh, data).free
  {
    LoadDecode(sh, data, FreeHead);
    LoadField(sh, data, FreeHead)
  }

  /** `load_first_index()`: the first-element head, which is the next field
      of index 0. */
  function LoadFirstIndex(sh: Shape, data: seq<bool>): (r: nat)
    requires Sized(sh, data)
    ensures r == Decode(sh, data).links[0]
  {
    LoadDecode(sh, data, FirstHead);
    LoadField(sh, data, FirstHead)
  }

  /** `load_value(index)`: the value of node `index`. */
  function LoadValue(sh: Shape, data: seq<bool>, index: nat): (r: nat)
    requires Sized(sh, data) && 1 <= index <= sh.maxSize
    ensures r == Decode(sh, data).vals[index - 1]
  {
    LoadDecode(sh, data, Value(index));
    LoadField(sh, data, Value(index))
  }

  /** `store_index(index, value)`. */
  function StoreIndex(sh: Shape, data: seq<bool>, index: nat, value: nat): (r: seq<bool>)
    requires Sized(sh, data) && index <= sh.maxSize
    ensures Sized(sh, r) && Decode(sh, r) == SetField(sh, Decode(sh, data), Link(index), value)
  {
    StoreField(sh, data, Link(index), value)
  }

  /** `store_free_index(value)`. */
  function StoreFreeIndex(sh: Shape, data: seq<bool>, value: nat): (r: seq<bool>)
    requires Sized(sh, data)
    ensures Sized(sh, r) && Decode(sh, r) == SetField(sh, Decode(sh, data), FreeHead, value)
  {
    StoreField(sh, data, FreeHead, value)
  }

  /** `store_first_index(value)`. */
  function StoreFirstIndex(sh: Shape, data: seq<bool>, value: nat): (r: seq<bool>)
    requires Sized(sh, data)
    ensures Sized(sh, r) && Decode(sh, r) == SetField(sh, Decode(sh, data), FirstHead, value)
  {
    StoreField(sh, data, FirstHead, value)
  }

  /** `store_value(index, value)`. */
  function StoreValue(sh: Shape, data: seq<bool>, index: nat, value: nat): (r: seq<bool>)
    requires Sized(sh, data) && 1 <= index <= sh.maxSize
    ensures Sized(sh, r) && Decode(sh, r) == SetField(sh, Decode(sh, data), Value(index), value)
  {
    StoreField(sh, data, Value(index), value)
  }

  /** `load_index(i)` after each kind of store: `store_index(i, v)` and, for
      index 0, `store_first_index(v)` make it return `v` cut to `count_bits`;
      every other store leaves it as it was. */
  lemma IndexAfterStore(sh: Shape, data: seq<bool>, i: nat, j: nat, k: nat, v: nat)
    requires Sized(sh, data) && i <= sh.maxSize && j <= sh.maxSize && 1 <= k <= sh.maxSize
    ensures LoadIndex(sh, StoreIndex(sh, data, j, v), i)
         == if i == j then v % Pow2(sh.CountBits()) else LoadIndex(sh, data, i)
    ensures LoadIndex(sh, StoreFirstIndex(sh, data, v), i)
         == if i == 0 then v % Pow2(sh.CountBits()) else LoadIndex(sh, data, i)
    ensures LoadIndex(sh, StoreFreeIndex(sh, data, v), i) == LoadIndex(sh, data, i)
    ensures LoadIndex(sh, StoreValue(sh, data, k, v), i) == LoadIndex(sh, data, i)
  {
  }

  /** `load_free_index()` after each kind of store: only
      `store_free_index(v)` changes it, to `v` cut to `count_bits`. */
  lemma FreeIndexAfterStore(sh: Shape, data: seq<bool>, j: nat, k: nat, v: nat)
    requires Sized(sh, data) && j <= sh.maxSize && 1 <= k <= sh.maxSize
    ensures LoadFreeIndex(sh, StoreFreeIndex(sh, data, v)) == v % Pow2(sh.CountBits())
    ensures LoadFreeIndex(sh, StoreIndex(sh, data, j, v)) == LoadFreeIndex(sh, data)
    ensures LoadFreeIndex(sh, StoreFirstIndex(sh, data, v)) == LoadFreeIndex(sh, data)
    ensures LoadFreeIndex(sh, StoreValue(sh, data, k, v)) == LoadFreeIndex(sh, data)
  {
  }

  /** `load_value(i)` after each kind of store: only `store_value(i, v)`
      changes it, to `v` cut to `value_bits`. */
  lemma ValueAfterStore(sh: Shape, data: seq<bool>, i: nat, j: nat, k: nat, v: nat)
    requires Sized(sh, data) && 1 <= i <= sh.maxSize && j <= sh.maxSize && 1 <= k <= sh.maxSize
    ensures LoadValue(sh, StoreValue(sh, data, k, v), i)
         == if i == k then v % Pow2(sh.ValueBits()) else LoadValue(sh, data, i)
    ensures LoadValue(sh, StoreIndex(sh, data, j, v), i) == LoadValue(sh, data, i)
    ensures LoadValue(sh, StoreFreeIndex(sh, data, v), i) == LoadValue(sh, data, i)
    ensures LoadValue(sh, StoreFirstIndex(sh, data, v), i) == LoadValue(sh, data, i)
  {
  }

  // ---------------------------------------------------------------------
  // The operations

  /** `store_in_free_node(value)` on the buffer. */
  function StoreInFreeNode(sh: Shape, data: seq<bool>, value: nat): (r: (seq<bool>, nat))
    requires Sized(sh, data) && CompactList.CanAllocate(sh, Decode(sh, data))
    ensures Sized(sh, r.0)
    ensures (Decode(sh, r.0), r.1) == CompactList.Allocate(sh, Decode(sh, data), value)
  {
    var firstFree := LoadFreeIndex(sh, data);
    var nextFree := LoadIndex(sh, data, firstFree);
    var d1 := if nextFree == 0 then StoreIndex(sh, data, firstFree + 1, 0) else data;
    var d2 := StoreFreeIndex(sh, d1, if nextFree == 0 then firstFree + 1 else nextFree);
    (StoreValue(sh, d2, firstFree, value), firstFree)
  }

  /** `clear()`, which is also all the constructor does to the fresh,
      arbitrary buffer: afterwards the list is empty and node 1 is the only
      free node. */
  function Clear(sh: Shape, data: seq<bool>): (r: seq<bool>)
    requires Sized(sh, data)
    ensures Valid(sh, r)
    ensures Elements(sh, r) == [] && CompactList.FreeNodes(sh, Decode(sh, r)) == [1]
    ensures Decode(sh, r) == CompactList.Clear(sh, Decode(sh, data))
  {
    var d1 := StoreFreeIndex(sh, data, 1);
    var d2 := StoreFirstIndex(sh, d1, 0);
    var r := StoreIndex(sh, d2, 1, 0);
    assert Decode(sh, r) == CompactList.Clear(sh, Decode(sh, data));
    r
  }

  /** `push_front(value)` on the buffer. */
  function PushFront(sh: Shape, data: seq<bool>, value: nat): (r: seq<bool>)
    requires Valid(sh, data) && CompactList.HasRoom(sh, Decode(sh, data))
    ensures Valid(sh, r)
    ensures Elements(sh, r) == [CompactList.Fit(sh, value)] + Elements(sh, data)
    ensures Decode(sh, r) == CompactList.PushFront(sh, Decode(sh, data), value)
  {
    CompactList.PushFrontSteps(sh, Decode(sh, data), value);
    var a := StoreInFreeNode(sh, data, value);
    var d1 := StoreIndex(sh, a.0, a.1, LoadFirstIndex(sh, a.0));
    StoreFirstIndex(sh, d1, a.1)
  }

  /** `pop_front()` on the buffer of a non-empty list. */
  function PopFront(sh: Shape, data: seq<bool>): (r: seq<bool>)
    requires Valid(sh, data) && Elements(sh, data) != []
    ensures Valid(sh, r)
    ensures Elements(sh, r) == Elements(sh, data)[1..]
    ensures Decode(sh, r) == CompactList.PopFront(sh, Decode(sh, data))
  {
    CompactList.PopFrontSteps(sh, Decode(sh, data));
    var firstFree := LoadFreeIndex(sh, data);
    var firstElement := LoadFirstIndex(sh, data);
    var secondElement := LoadIndex(sh, data, firstElement);
    var d1 := StoreFirstIndex(sh, data, secondElement);
    var d2 := StoreIndex(sh, d1, firstElement, firstFree);
    StoreFreeIndex(sh, d2, firstElement)
  }

  /** `insert_after(position, value)` on the buffer; the result carries the
      returned iterator's index. The effect on the values is
      `CompactList.InsertAfter`'s. */
  function InsertAfter(sh: Shape, data: seq<bool>, position: nat, value: nat): (r: (seq<bool>, nat))
    requires Valid(sh, data) && CompactList.HasRoom(sh, Decode(sh, data))
    requires position in CompactList.Positions(sh, Decode(sh, data))
    ensures Valid(sh, r.0)
    ensures (Decode(sh, r.0), r.1) == CompactList.InsertAfter(sh, Decode(sh, data), position, value)
  {
    var w := Decode(sh, data);
    CompactList.InsertAfterAt(sh, w, position, value, CompactList.PositionIndex(sh, w, position));
    var a := StoreInFreeNode(sh, data, value);
    var nextElement := LoadIndex(sh, a.0, position);
    var d1 := StoreIndex(sh, a.0, position, a.1);
    (StoreIndex(sh, d1, a.1, nextElement), a.1)
  }

  /** `erase_after(position)` on the buffer, for a position with a
      successor; the result carries the returned iterator's index. The
      effect on the values is `CompactList.EraseAfter`'s. */
  function EraseAfter(sh: Shape, data: seq<bool>, position: nat): (r: (seq<bool>, nat))
    requires Valid(sh, data) && position in CompactList.Positions(sh, Decode(sh, data))
    requires CompactList.PositionIndex(sh, Decode(sh, data), position) < |Elements(sh, data)|
    ensures Valid(sh, r.0)
    ensures (Decode(sh, r.0), r.1) == CompactList.EraseAfter(sh, Decode(sh, data), position)
  {
    var w := Decode(sh, data);
    CompactList.EraseAfterAt(sh, w, position, CompactList.PositionIndex(sh, w, position));
    var nextElement := LoadIndex(sh, data, position);
    var nextNextElement := LoadIndex(sh, data, nextElement);
    var firstFree := LoadFreeIndex(sh, data);
    var d1 := StoreIndex(sh, data, nextElement, firstFree);
    var d2 := StoreFreeIndex(sh, d1, nextElement);
    (StoreIndex(sh, d2, position, nextNextElement), nextNextElement)
  }

  /** `push_back(value)`: allocate, clear the new node's next field, walk
      from the first node to the last and link the new node after it (or
      make it the first node of an empty list). */
  method PushBack(sh: Shape, data: seq<bool>, value: nat) returns (r: seq<bool>)
    requires Valid(sh, data) && CompactList.HasRoom(sh, Decode(sh, data))
    ensures Valid(sh, r)
    ensures Elements(sh, r) == Elements(sh, data) + [CompactList.Fit(sh, value)]
    ensures var w := Decode(sh, data);
      CompactList.LiveNodes(sh, Decode(sh, r)) == CompactList.LiveNodes(sh, w) + [CompactList.FreeNodes(sh, w)[0]] &&
      CompactList.FreeNodes(sh, Decode(sh, r)) == NextFree(CompactList.FreeNodes(sh, w))
  {
    ghost var w := Decode(sh, data);
    CompactList.CapacityIsMaxSizeMinusOne(sh, w);
    CompactList.LastLinked(sh, w, value);
    WidthsSuffice(sh);
    ghost var l := CompactList.LiveNodes(sh, w);
    var a := StoreInFreeNode(sh, data, value);
    var newElement := a.1;
    var d2 := StoreIndex(sh, a.0, newElement, 0);
    var last := FindLast(sh, d2, l);
    if last == 0 {
      r := StoreFirstIndex(sh, d2, newElement);
    } else {
      r := StoreIndex(sh, d2, last, newElement);
    }
    ghost var a' := CompactList.Allocate(sh, w, value);
    assert Decode(sh, r).links == a'.0.links[a'.1 := 0][Before(l, |l|) := a'.1];
    CompactList.PushBackAt(sh, w, value, Decode(sh, r));
  }

  /** The walk of `push_back` along the chain `l` from the first-element
      head: its last node, or 0 when the chain is empty. */
  method FindLast(sh: Shape, data: seq<bool>, ghost l: seq<nat>) returns (last: nat)
    requires Sized(sh, data)
    requires Linked(Decode(sh, data).links, Decode(sh, data).links[0], l)
    ensures last == Before(l, |l|)
  {
    last := LoadFirstIndex(sh, data);
    if last != 0 {
      var next := LoadIndex(sh, data, last);
      ghost var i := 0;
      while next != 0
        invariant i < |l| && last == l[i] && next == Succ(l, i)
        decreases |l| - i
      {
        i := i + 1;
        last := next;
        next := LoadIndex(sh, data, last);
      }
    }
  }
}
