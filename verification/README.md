# CPP-Projects in Dafny: the compact forward list, the big integer, union-find

This project models three cores of the repository and proves what they
promise:

- **`compact_forward_list<value_limit, max_size>`**, a singly linked list
  whose nodes live in one bit-packed buffer.
  - The buffer holds, from bit 0: the free-list head, the first-element
    head, and `max_size` records of `value_bits + count_bits` bits each.
  - A record holds a node's value followed by its next index. Node `i`'s
    value is at bit `2*count_bits + (i-1)*(value_bits+count_bits)` and its
    next index at bit `count_bits + i*(value_bits+count_bits)`
    (compact-linked-list/compact_linked_list.h:219-233).
  - Index 0 means "no node". The first-element head sits exactly where the
    next field of a node 0 would be, so `insert_after`/`erase_after` at
    index 0 act on the front of the list.
  - Free slots form a LIFO free list that grows lazily past its boundary
    slot.
- **`big_intiger`**, a non-negative integer held as little-endian base-10^9
  chunks, with construction, `add`, `multiply`, `power`, `tostr` and
  `digit_sum`.
- **`union_find`**, a parent array with path-compressing `find`, `merge`
  and a group counter.

The list is layered:

- `Bits` is the buffer as `seq<bool>`. Bit `p` is bit `p % 8` of byte
  `p / 8`, the source's addressing. `Load`/`Store` are the source's bit
  loops.
- `Layout` gives each field's place and width and decodes a buffer into a
  `View`: the free head, the next index of every slot `0..max_size` (slot 0
  being the first-element head) and the value of every slot `1..max_size`.
- `Chains` is about chains of next indices, the live list and the free
  list, and the partition they form.
- `CompactList` holds the list operations on the decoded view. The
  abstraction functions are `LiveNodes`, `FreeNodes` and `Elements`.
- `PackedList` holds the same operations on the bit buffer. Each one is
  proved to decode to the view-level operation.
- `ListAccess` holds the iterators, the proxy, and list equality.

`BigInteger` states everything against `Val(c) = Σ c[i]·10^(9i)`. `UnionFind`
keeps a ghost ranking of the parent links to show that they stay acyclic and
that `find` terminates.

Integers are unbounded.

- The 32-bit cells of `add` and `multiply` are reduced with an explicit
  `% 2^32`, and the proofs show that the reduction never changes a cell.
- `digit_sum` is reduced `% 2^32` because its `uint32_t` sum can wrap.
- The stored list values are truncated to `value_bits` bits (`Fit`), as
  the store loop does.

## Model

| member | source | states |
|---|---|---|
| Bits.Store | compact-linked-list/compact_linked_list.h:235-247 | storing `v` in `w` bits at `p` sets exactly bits `p..p+w-1` to the bits of `v`, leaves every other bit unchanged, and a load there returns `v mod 2^w` |
| Bits.Load | compact-linked-list/compact_linked_list.h:265-278 | a `w`-bit load is below `2^w` |
| Bits.FromToBits | compact-linked-list/compact_linked_list.h:235-278 | reading back the `w` bits written for `v` gives `v mod 2^w` |
| Bits.LoadFrame | compact-linked-list/compact_linked_list.h:265-278 | a load depends only on the bits of its own span |
| Bits.StoreCommute | compact-linked-list/compact_linked_list.h:235-247 | stores to disjoint spans commute |
| Layout.CeilLog2 | compact-linked-list/compact_linked_list.h:13-14 | the integer `ceil(log2 n)`: the least `k` with `n <= 2^k` |
| Layout.WidthsSuffice | compact-linked-list/compact_linked_list.h:13-16 | every index `0..max_size` fits `count_bits`, every value below `value_limit` fits `value_bits`, and `bit_size` fits `byte_size` bytes |
| Layout.FieldInBuffer | compact-linked-list/compact_linked_list.h:15-16 | every field ends within `bit_size`, and the next field of node `max_size` ends exactly at `bit_size` |
| Layout.FieldsDisjoint | compact-linked-list/compact_linked_list.h:219-233 | two fields that are not the same field share no bit; the first-element head and node 0's next field are the same span |
| Layout.OrderedFieldsApart | compact-linked-list/compact_linked_list.h:219-233 | fields lie in buffer order: free head, first head, then value and next of nodes 1, 2, … |
| Layout.LoadField | compact-linked-list/compact_linked_list.h:249-263 | a field load is below `2^width` of that field |
| Layout.LoadAfterStore | compact-linked-list/compact_linked_list.h:219-263 | after a field store, loading the same field gives the stored value mod `2^width`, and loading any other field gives what it held before |
| Layout.StoreDecode | compact-linked-list/compact_linked_list.h:219-233 | storing a field changes the decoded view in that field alone |
| Layout.SetField | compact-linked-list/compact_linked_list.h:219-233 | a field write keeps the view well-shaped, reads back truncated, and writing the first head is writing node 0's next |
| Layout.StoreField | compact-linked-list/compact_linked_list.h:219-233 | the buffer store decodes to the view-level field write |
| Chains.WalkLinked | compact-linked-list/compact_linked_list.h:57-61 | the nodes reached by repeated `++` form a chain of next links ending in 0 |
| Chains.LinkedWalk | compact-linked-list/compact_linked_list.h:57-61 | a chain of next links ending in 0 is exactly what the walk reaches |
| Chains.PartitionFacts | compact-linked-list/compact_linked_list.h:206-217 | the live and free chains are disjoint and repetition-free, and together they cover slots `1..` the free tail |
| Chains.PartitionAlloc | compact-linked-list/compact_linked_list.h:206-217 | taking the free head into the live list keeps live and free a partition of the slots in use |
| Chains.PartitionFree | compact-linked-list/compact_linked_list.h:144-154 | moving a live node to the front of the free list keeps the partition |
| CompactList.Expose | compact-linked-list/compact_linked_list.h:206-217 | in a valid list the live and free chains are linked, disjoint, repetition-free, and fill slots up to the boundary slot |
| CompactList.Establish | compact-linked-list/compact_linked_list.h:206-217 | linked chains that partition the slots make a valid list with exactly those chains |
| CompactList.Clear | compact-linked-list/compact_linked_list.h:120-124 | after `clear` the list is valid and empty, the free list is `[1]`, and values are untouched |
| CompactList.Allocate | compact-linked-list/compact_linked_list.h:206-217 | `store_in_free_node` returns the free head, stores the value there, and advances the free head, extending the boundary with `next(k+1) = 0` only when the head's next is 0 |
| CompactList.AllocateSpec | compact-linked-list/compact_linked_list.h:206-217 | the allocated slot is the free list's first slot and is neither live nor still free; live links are untouched and the rest of the free list stays linked |
| CompactList.AllocateBoundary | compact-linked-list/compact_linked_list.h:209-212 | at the boundary slot the new free list is the single next slot, above every live node |
| CompactList.CapacityIsMaxSizeMinusOne | compact-linked-list/compact_linked_list.h:206-217 | allocation stays inside the buffer exactly when the list holds at most `max_size - 2` nodes, so capacity is `max_size - 1` |
| CompactList.FitKeepsValues | compact-linked-list/compact_linked_list.h:231-233 | values below `value_limit` are stored unchanged |
| CompactList.PushFront | compact-linked-list/compact_linked_list.h:138-142 | `push_front(v)` turns the elements `s` into `[v] + s`, puts the free head at the front of the live chain, and pops it off the free list |
| CompactList.PushFrontSteps | compact-linked-list/compact_linked_list.h:138-142 | the source's allocate-then-two-stores sequence has that effect |
| CompactList.PopFront | compact-linked-list/compact_linked_list.h:156-164 | on a non-empty list `pop_front` turns `s` into `s[1..]`, and the removed slot becomes the free head |
| CompactList.PopFrontSteps | compact-linked-list/compact_linked_list.h:156-164 | the source's three loads and three stores have that effect |
| CompactList.InsertAfter | compact-linked-list/compact_linked_list.h:130-136 | `insert_after(pos, v)` places `v` right after `pos`'s element (at the front for index 0) and returns the allocated slot |
| CompactList.InsertAfterAt | compact-linked-list/compact_linked_list.h:130-136 | the source's store sequence, at the `k`-th position, inserts at index `k` of the elements |
| CompactList.EraseAfter | compact-linked-list/compact_linked_list.h:144-154 | `erase_after(pos)` removes `pos`'s successor, frees its slot to the free head, and returns the index of the element after it |
| CompactList.EraseAfterAt | compact-linked-list/compact_linked_list.h:144-154 | the source's store sequence at the `k`-th position removes element `k` |
| CompactList.PushBackAt | compact-linked-list/compact_linked_list.h:188-203 | linking a fresh node after the last live node (or at the head of an empty list) turns `s` into `s + [v]` |
| CompactList.InsertAfterZeroIsPushFront | compact-linked-list/compact_linked_list.h:130-142 | because index 0's next field is the first head, `insert_after` at index 0 is `push_front` |
| CompactList.EraseAfterZeroIsPopFront | compact-linked-list/compact_linked_list.h:144-164 | `erase_after` at index 0 is `pop_front` |
| CompactList.PopThenPushReusesNode | compact-linked-list/compact_linked_list.h:138-164 | `pop_front` then `push_front` reuses the slot just freed: same live chain, same free list, front value replaced |
| PackedList.IndexAfterStore | compact-linked-list/compact_linked_list.h:249-251 | `load_index(i)` returns `v` cut to `count_bits` after `store_index(i, v)`, and for index 0 also after `store_first_index(v)`; every other store leaves it unchanged |
| PackedList.FreeIndexAfterStore | compact-linked-list/compact_linked_list.h:253-255 | `load_free_index()` returns `v` cut to `count_bits` after `store_free_index(v)`; `store_index`, `store_first_index` and `store_value` leave it unchanged |
| PackedList.LoadFirstIndex | compact-linked-list/compact_linked_list.h:257-259 | `load_first_index` is the decoded next of slot 0 |
| PackedList.ValueAfterStore | compact-linked-list/compact_linked_list.h:261-263 | `load_value(i)` returns `v` cut to `value_bits` after `store_value(i, v)`; a value store to another node and every index or head store leave it unchanged |
| PackedList.StoreIndex | compact-linked-list/compact_linked_list.h:219-221 | `store_index` changes only slot `i`'s decoded next |
| PackedList.StoreFreeIndex | compact-linked-list/compact_linked_list.h:223-225 | `store_free_index` changes only the decoded free head |
| PackedList.StoreFirstIndex | compact-linked-list/compact_linked_list.h:227-229 | `store_first_index` changes only the decoded first head |
| PackedList.StoreValue | compact-linked-list/compact_linked_list.h:231-233 | `store_value` changes only slot `i`'s decoded value |
| PackedList.StoreInFreeNode | compact-linked-list/compact_linked_list.h:206-217 | the buffer allocator decodes to the view allocator |
| PackedList.Clear | compact-linked-list/compact_linked_list.h:120-124 | the cleared buffer is a valid, empty list with free list `[1]` |
| PackedList.PushFront | compact-linked-list/compact_linked_list.h:138-142 | on the buffer, `push_front(v)` turns the elements `s` into `[v] + s` |
| PackedList.PopFront | compact-linked-list/compact_linked_list.h:156-164 | on the buffer, `pop_front` turns `s` into `s[1..]` |
| PackedList.InsertAfter | compact-linked-list/compact_linked_list.h:130-136 | on the buffer, `insert_after` decodes to the view-level insertion |
| PackedList.EraseAfter | compact-linked-list/compact_linked_list.h:144-154 | on the buffer, `erase_after` decodes to the view-level removal |
| PackedList.PushBack | compact-linked-list/compact_linked_list.h:188-203 | `push_back(v)` turns `s` into `s + [v]`, appending the free head to the live chain |
| PackedList.FindLast | compact-linked-list/compact_linked_list.h:192-201 | the loop that follows next links stops at the last live node, or 0 for an empty list |
| ListAccess.NodeAt | compact-linked-list/compact_linked_list.h:57-61 | the `k`-th node index is 0 exactly at the end of the list |
| ListAccess.NodesApart | compact-linked-list/compact_linked_list.h:63-65 | the `j`-th and `k`-th node indices are equal exactly when `j == k` |
| ListAccess.BeginIsFirstStep | compact-linked-list/compact_linked_list.h:172-186 | `begin()` is the first node, and `begin() == end()` exactly when the list is empty |
| ListAccess.IncrementSteps | compact-linked-list/compact_linked_list.h:57-61 | `++` moves from the `k`-th node to the `k+1`-th |
| ListAccess.IncrementEndIsBegin | compact-linked-list/compact_linked_list.h:57-61 | `++` on `end()` reads node 0's next, which is `begin()` |
| ListAccess.SameIndexSameStep | compact-linked-list/compact_linked_list.h:63-65 | iterator `==` compares indices, and two iterators from `begin()` are equal exactly when they took the same number of steps |
| ListAccess.ReadSteps | compact-linked-list/compact_linked_list.h:78-80 | dereferencing the `k`-th iterator reads element `k` |
| ListAccess.Traverse | compact-linked-list/compact_linked_list.h:172-186 | iterating from `begin()` to `end()` yields exactly the elements |
| ListAccess.Get | compact-linked-list/compact_linked_list.h:78-80 | a proxy reads its node's stored value, which fits `value_bits` |
| ListAccess.Set | compact-linked-list/compact_linked_list.h:82-85 | proxy assignment stores the truncated value in that node only |
| ListAccess.SetReplaces | compact-linked-list/compact_linked_list.h:82-85 | assigning through the `k`-th iterator replaces element `k` and keeps the list valid |
| ListAccess.Assign | compact-linked-list/compact_linked_list.h:86-89 | proxy-to-proxy assignment copies this list's value at `other`'s index into this node only |
| ListAccess.Swap | compact-linked-list/compact_linked_list.h:91-95 | `swap` of two proxies of one list exchanges their two values and changes nothing else |
| ListAccess.SwapExchanges | compact-linked-list/compact_linked_list.h:91-95 | swapping through the `j`-th and `k`-th iterators exchanges elements `j` and `k` |
| ListAccess.Equal | compact-linked-list/compact_linked_list.h:126-128 | list `==` holds exactly when both lists have the same elements in the same order |
| BigInteger.Shrink | big-integer/big-integer.h:12-20 | `shrink` drops only zero chunks from the top, keeps at least one chunk, and keeps the value |
| BigInteger.ShrinkNormal | big-integer/big-integer.h:12-20 | `shrink` leaves a normal chunk vector unchanged |
| BigInteger.Zero | big-integer/big-integer.h:23-24 | the default constructor gives a normal vector of value 0 |
| BigInteger.FromChunks | big-integer/big-integer.h:47-49 | the vector constructor accepts any vector, drops only top zero chunks and keeps the value; a non-empty vector keeps at least one chunk with no zero on top, and one whose chunks are below 10^9 becomes normal |
| BigInteger.FromU64 | big-integer/big-integer.h:26-33 | the `uint64_t` constructor gives chunks below 10^9 whose value is `num`, and the vector is empty exactly when `num` is 0 |
| BigInteger.FromU64ZeroIsEmpty | big-integer/big-integer.h:26-33 | `big_intiger(0)` has empty data, unlike the default constructor's `{0}`, though both have value 0 |
| BigInteger.FromU64Fixed | big-integer/big-integer.h:23-33 | the corrected constructor gives a normal vector of value `num`, equal to the source's for every `num != 0` |
| BigInteger.FromString | big-integer/big-integer.h:35-45 | the string constructor splits the digits from the right into chunks below 10^9, one per nine digits, with the decimal value of the string |
| BigInteger.ToStr | big-integer/big-integer.h:101-109 | `tostr` gives a digit string whose decimal value is the number |
| BigInteger.ToStrIsDecimal | big-integer/big-integer.h:101-109 | for a normal vector `tostr` is the decimal spelling without leading zeros |
| BigInteger.FromStringToStr | big-integer/big-integer.h:35-109 | constructing from `tostr()` gives back the same chunks |
| BigInteger.ToStrFromString | big-integer/big-integer.h:35-109 | `tostr` of a string-constructed number gives back any digit string without leading zeros, including "0" |
| BigInteger.Add | big-integer/big-integer.h:72-87 | `add` yields a normal vector of value `val(a) + val(b)` |
| BigInteger.MulStepExact | big-integer/big-integer.h:62-65 | one cell step of `multiply` never wraps a `uint32_t` cell, and leaves a carry of at most 10^9 + 1 |
| BigInteger.MultiplyRow | big-integer/big-integer.h:60-66 | one row of the schoolbook loop adds `a1[i] * val(a2) * 10^(9i)` and keeps every cell in range |
| BigInteger.Multiply | big-integer/big-integer.h:51-70 | `multiply` yields a normal vector of value `val(a) * val(b)` |
| BigInteger.Power | big-integer/big-integer.h:89-99 | `power(e)` yields a normal vector of value `val^e`; `e == 0` gives 1 |
| BigInteger.ToStrDigitSum | big-integer/big-integer.h:131-140 | the digit sums of the chunks add up to the sum of the digits of `tostr()` |
| BigInteger.DigitSum | big-integer/big-integer.h:131-140 | `digit_sum` is the sum of the digits of `tostr()`, modulo 2^32 |
| UnionFind.Init | union-find/union_find.h:13-16 | after construction every element is its own root and group, the group count is `max_count`, and every size is 0 |
| UnionFind.InitSizesDoNotCount | union-find/union_find.h:13-16 | the constructed sizes do not count the groups |
| UnionFind.InitSized | union-find/union_find.h:13-16 | with sizes filled with 1, every root's size counts its group |
| UnionFind.RootIsRep | union-find/union_find.h:21-23 | an element is a root exactly when the root walk from it ends at once |
| UnionFind.CompressStep | union-find/union_find.h:26-30 | one step of path compression keeps the links acyclic, every representative and the root count |
| UnionFind.Find | union-find/union_find.h:18-33 | `find(idx)` returns `idx`'s root, reached by parent links; afterwards every node on the path points at it, nothing else changes, and every representative is kept |
| UnionFind.Link | union-find/union_find.h:43-50 | linking one root under another keeps the links acyclic, drops the root count by one, and moves exactly the child's group to the parent |
| UnionFind.Merge | union-find/union_find.h:35-53 | `merge` returns true exactly when both already share a root, and then nothing in the partition, the count or the sizes changes; otherwise the smaller-sized root goes under the other, the count drops by one and the sizes add up; afterwards both share a root; with sizes all 0, `first`'s root always goes under `second`'s |
| UnionFind.SizesLinked | union-find/union_find.h:45-50 | when each root's size counts its group, linking the child root under the parent and adding the sizes keeps that so |
| UnionFind.SizesSameReps | union-find/union_find.h:36-37 | `find` keeps sizes that count the groups |
| UnionFind.GroupsCount | union-find/union_find.h:55-57 | `get_groups_count` is the number of distinct representatives |

## Left out

- The floating-point `ceil(log2(...))` is replaced by the integer `CeilLog2`.
- Shape.Valid: requires `max_size >= 1` and `value_limit >= 1`. A
  `compact_forward_list` with `max_size` 0 is legal C++. It has
  `count_bits` 0, `clear` stores nothing, and `begin() == end()` always
  holds. Every other operation on it is undefined, so it is not modelled.
- ListAccess.Assign and ListAccess.Swap: both proxies belong to one list.
  Proxy-to-proxy `operator=` (compact-linked-list/compact_linked_list.h:86-89)
  reads `other`'s index in its own list. With proxies of two different
  lists, `swap` therefore does not trade their values. That two-list case
  is not modelled.
- `smallest_usigned_type_with_bits` is modelled by unbounded naturals. The
  only narrowing modelled is the truncation of stored values to `value_bits`.
- The buffer is `bit_size` bits long. The padding bits up to `byte_size`
  bytes are never read or written and are not modelled.
- Raw buffer allocation and release (constructor and destructor), the
  iterator-traits typedefs, the const/non-const template machinery,
  `const_proxy` and implicit conversions are left out. Proxies and iterators
  are node indices with explicit get/set.
- Out-of-contract list calls are preconditions. The corruption they cause
  is not modelled. These calls are:
  - `pop_front` on an empty list;
  - `erase_after` without a successor;
  - allocation with no room left (`HasRoom`: at most `max_size - 1` live
    nodes).
- A shift `1<<i` in `store` is undefined for `i >= 31`. Field widths are
  assumed to stay below that.
- compact-linked-list/test.cpp is a test harness and is not part of this
  model.
- The shared-pointer headers are not part of this model: they are about
  memory ownership and atomic counting.
- `print`/`printl` console output is left out. `tostr`'s `stringstream`
  formatting is the pure function `ToStr`.
- BigInteger.FromString: restricted to digit strings. The `std::stoi`
  exception on other input is not modelled.
- BigInteger.ToStr: requires at least one chunk, because `data.back()` on
  an empty vector is undefined. It also requires every chunk below 10^9,
  which is the form the default, `uint64_t` and string constructors give.
  Vector-constructed data with a larger cell is not modelled: `setw(9)`
  does not cut a ten-digit cell, so `{1000000000, 1}` prints as
  "11000000000".
- BigInteger.Add and BigInteger.Multiply: they take the operands by value,
  so they are also `operator+`/`operator*`. The operands being unchanged is
  immediate and not stated separately. Both require every chunk below 10^9,
  the form the default, `uint64_t` and string constructors give.
  Vector-constructed data with larger cells is not modelled: there a cell
  can wrap its `uint32_t`. For example, `{3000000000}` added to itself
  gives `{705032704, 1}`.
- BigInteger.Power: the exponent is a `uint32_t`, so the model requires
  `exp < 2^32`. Like `multiply`, it requires every chunk below 10^9.
  Vector-constructed data with larger cells is not modelled.
- UnionFind.Find and UnionFind.Merge: indices must lie in
  `0..max_count-1`, because the source does not check them.
- UnionFind.Init: requires `max_count >= 0`.
- UnionFind.Merge: sizes are unbounded integers. A 32-bit overflow of
  `sizes[...] +=` is not modelled, since with the sizes at 0 it cannot
  happen.

## Findings

| source | as written | input that shows it | evidently intended | confidence | as-written member | corrected member |
|---|---|---|---|---|---|---|
| big-integer/big-integer.h:26-33 | `while(num)` never runs for 0, so `big_intiger(0)` has an empty `data`. Its `tostr()` then reads `data.back()` of an empty vector | `big_intiger(uint64_t(0))` | `data == {0}`, as the default constructor gives | high; not executed | BigInteger.FromU64ZeroIsEmpty | BigInteger.FromU64Fixed |
| union-find/union_find.h:13-16 | line 14 fills `roots` with 1, which line 15 overwrites, so `sizes` keeps its value-initialised 0s. The test at :45 never holds and union by size never happens | `union_find(2)`: `sizes[0] == 0`, though root 0's group has one element | fill `sizes` with 1, so each root's size counts its group and the smaller group goes under | high; not executed | UnionFind.InitSizesDoNotCount | UnionFind.InitSized |
