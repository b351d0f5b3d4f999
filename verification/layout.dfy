/** The bit layout of `compact_forward_list<value_limit, max_size>`.

    From bit 0 the buffer holds the free-list head, the first-element head,
    and then one record per node `1..max_size`: the node's value followed by
    its next index. The first-element head sits exactly where the next index
    of a node 0 would sit, so "the next field of index 0" IS the list head. */
module Layout {
  import opened Bits

  /** The integer replacement of `ceil(log2(n))`: the least `k` with `n <= 2^k`. */
  function CeilLog2(n: nat): (k: nat)
    ensures n <= Pow2(k)
    ensures k == 0 || Pow2(k - 1) < n
  {
    if n <= 1 then 0 else 1 + CeilLog2((n + 1) / 2)
  }

  /** `n * rb`, the bits taken by `n` records of `rb` bits each, written as
      repeated addition so that the layout proofs stay linear. */
  function Records(n: nat, rb: nat): (r: nat)
  {
    if n == 0 then 0 else Records(n - 1, rb) + rb
  }

  lemma {:induction false} RecordsIsProduct(n: nat, rb: nat)
    ensures Records(n, rb) == n * rb
  {
    if n > 0 {
      RecordsIsProduct(n - 1, rb);
    }
  }

  lemma {:induction false} RecordsMono(i: nat, j: nat, rb: nat)
    requires i <= j
    ensures Records(i, rb) <= Records(j, rb)
    ensures i < j ==> Records(i, rb) + rb <= Records(j, rb)
  {
    if i < j {
      RecordsMono(i, j - 1, rb);
    }
  }

  /** The two template parameters of the list. */
  datatype Shape = Shape(valueLimit: nat, maxSize: nat) {

    predicate Valid()
    {
      valueLimit >= 1 && maxSize >= 1
    }

    function ValueBits(): nat
    {
      CeilLog2(valueLimit)
    }

    function CountBits(): nat
    {
      CeilLog2(maxSize + 1)
    }

    function RecordBits(): nat
    {
      ValueBits() + CountBits()
    }

    /** `max_size * (value_bits + count_bits) + 2 * count_bits`. */
    function BitSize(): nat
    {
      Records(maxSize, RecordBits()) + 2 * CountBits()
    }

    function ByteSize(): nat
    {
      (BitSize() + 7) / 8
    }
  }

  /** Every index `0..max_size` and every value below `value_limit` fits its field. */
  lemma WidthsSuffice(sh: Shape)
    ensures sh.maxSize < Pow2(sh.CountBits())
    ensures sh.valueLimit <= Pow2(sh.ValueBits())
    ensures sh.BitSize() <= 8 * sh.ByteSize()
  {
  }

  /** The semantic fields of the buffer. */
  datatype Field = FreeHead | FirstHead | Link(node: nat) | Value(node: nat)

  predicate ValidField(sh: Shape, f: Field)
  {
    match f
    case Link(i) => i <= sh.maxSize
    case Value(i) => 1 <= i <= sh.maxSize
    case _ => true
  }

  function Width(sh: Shape, f: Field): nat
  {
    if f.Value? then sh.ValueBits() else sh.CountBits()
  }

  /** The first bit of a field (`store_free_index`, `store_first_index`,
      `store_index`, `store_value` and their `load_` twins). */
  function Start(sh: Shape, f: Field): nat
    requires ValidField(sh, f)
  {
    match f
    case FreeHead => 0
    case FirstHead => sh.CountBits()
    case Link(i) => sh.CountBits() + Records(i, sh.RecordBits())
    case Value(i) => 2 * sh.CountBits() + Records(i - 1, sh.RecordBits())
  }

  function End(sh: Shape, f: Field): nat
    requires ValidField(sh, f)
  {
    Start(sh, f) + Width(sh, f)
  }

  /** The field a field's bits are shared with: the first-element head is
      the next field of index 0. */
  function Canon(f: Field): Field
  {
    if f == FirstHead then Link(0) else f
  }

  /** Position of a canonical field in the buffer, front to back. */
  function Rank(f: Field): nat
  {
    match f
    case FreeHead => 0
    case FirstHead => 1
    case Link(i) => 2 * i + 1
    case Value(i) => 2 * i
  }

  lemma OrderedFieldsApart(sh: Shape, f: Field, g: Field)
    requires sh.Valid() && ValidField(sh, f) && ValidField(sh, g)
    requires f != FirstHead && g != FirstHead
    requires Rank(f) < Rank(g)
    ensures End(sh, f) <= Start(sh, g)
  {
    var cb, vb, rb := sh.CountBits(), sh.ValueBits(), sh.RecordBits();
    match f {
      case FreeHead =>
      case FirstHead =>
      case Link(i) =>
        match g {
          case Link(j) =>
            RecordsMono(i, j, rb);
          case Value(j) =>
            RecordsMono(i, j - 1, rb);
          case _ =>
        }
      case Value(i) =>
        match g {
          case Link(j) =>
            RecordsMono(i, j, rb);
          case Value(j) =>
            RecordsMono(i - 1, j - 1, rb);
          case _ =>
        }
    }
  }

  /** Every field lies inside the buffer, and the last one ends exactly at
      `bit_size`. */
  lemma FieldInBuffer(sh: Shape, f: Field)
    requires sh.Valid() && ValidField(sh, f)
    ensures End(sh, f) <= sh.BitSize()
    ensures End(sh, Link(sh.maxSize)) == sh.BitSize()
  {
    var rb := sh.RecordBits();
    match f {
      case Link(i) =>
        RecordsMono(i, sh.maxSize, rb);
      case Value(i) =>
        RecordsMono(i - 1, sh.maxSize, rb);
      case _ =>
    }
  }

  /** The fields lie inside the buffer and do not overlap, except that the
      first-element head and the next field of index 0 are the same bits. */
  lemma FieldsDisjoint(sh: Shape, f: Field, g: Field)
    requires sh.Valid() && ValidField(sh, f) && ValidField(sh, g)
    ensures End(sh, f) <= sh.BitSize()
    ensures End(sh, Link(sh.maxSize)) == sh.BitSize()
    ensures Canon(f) == Canon(g) ==> Start(sh, f) == Start(sh, g) && Width(sh, f) == Width(sh, g)
    ensures Canon(f) != Canon(g) ==> End(sh, f) <= Start(sh, g) || End(sh, g) <= Start(sh, f)
  {
    FieldInBuffer(sh, f);
    var f', g' := Canon(f), Canon(g);
    if f' != g' {
      if Rank(f') < Rank(g') {
        OrderedFieldsApart(sh, f', g');
      } else {
        OrderedFieldsApart(sh, g', f');
      }
    }
  }

  /** `load_*`: the number held by a field. */
  function LoadField(sh: Shape, buf: seq<bool>, f: Field): (r: nat)
    requires sh.Valid() && |buf| == sh.BitSize() && ValidField(sh, f)
    ensures r < Pow2(Width(sh, f))
  {
    FieldsDisjoint(sh, f, f);
    Load(buf, Start(sh, f), Width(sh, f))
  }

  /** The buffer decoded field by field: `links[i]` is the next field of
      node `i` (so `links[0]` is the first-element head) and `vals[i - 1]`
      the value of node `i`. */
  datatype View = View(free: nat, links: seq<nat>, vals: seq<nat>)
  {
    /** This view with field `f` holding `x`. */
    function Put(f: Field, x: nat): View
      requires f.Link? ==> f.node < |links|
      requires f.Value? ==> 1 <= f.node <= |vals|
      requires f == FirstHead ==> |links| > 0
    {
      match f
      case FreeHead => this.(free := x)
      case FirstHead => this.(links := links[0 := x])
      case Link(i) => this.(links := links[i := x])
      case Value(i) => this.(vals := vals[i - 1 := x])
    }
  }

  /** A view with one next field per index `0..max_size` and one value per
      node `1..max_size`. */
  predicate Shaped(sh: Shape, w: View)
  {
    sh.Valid() && |w.links| == sh.maxSize + 1 && |w.vals| == sh.maxSize
  }

  /** The decoded counterpart of `load_*`. */
  function GetField(sh: Shape, w: View, f: Field): nat
    requires Shaped(sh, w) && ValidField(sh, f)
  {
    match f
    case FreeHead => w.free
    case FirstHead => w.links[0]
    case Link(i) => w.links[i]
    case Value(i) => w.vals[i - 1]
  }

  /** The decoded counterpart of `store_*`: the field keeps the low bits of
      `v` that fit its width. */
  function SetField(sh: Shape, w: View, f: Field, v: nat): (w': View)
    requires Shaped(sh, w) && ValidField(sh, f)
    ensures Shaped(sh, w')
    ensures GetField(sh, w', f) == v % Pow2(Width(sh, f))
    ensures f == FirstHead ==> GetField(sh, w', Link(0)) == v % Pow2(Width(sh, f))
    ensures v < Pow2(Width(sh, f)) ==> w' == w.Put(f, v)
  {
    ModBelow(v, Pow2(Width(sh, f)));
    w.Put(f, v % Pow2(Width(sh, f)))
  }

  /** The next field of index `i`, total over the integers. */
  function LinkAt(sh: Shape, buf: seq<bool>, i: int): nat
    requires sh.Valid() && |buf| == sh.BitSize()
  {
    if 0 <= i <= sh.maxSize then LoadField(sh, buf, Link(i)) else 0
  }

  /** The value field of node `i`, total over the integers. */
  function ValueAt(sh: Shape, buf: seq<bool>, i: int): nat
    requires sh.Valid() && |buf| == sh.BitSize()
  {
    if 1 <= i <= sh.maxSize then LoadField(sh, buf, Value(i)) else 0
  }

  function Decode(sh: Shape, buf: seq<bool>): (w: View)
    requires sh.Valid() && |buf| == sh.BitSize()
    ensures Shaped(sh, w)
  {
    View(LoadField(sh, buf, FreeHead),
         seq(sh.maxSize + 1, i => LinkAt(sh, buf, i)),
         seq(sh.maxSize, i => ValueAt(sh, buf, i + 1)))
  }

  /** `store_*`: writing field `f` changes exactly that field of the decoded
      buffer, to `v` truncated to the field's width, and nothing else. */
  function StoreField(sh: Shape, buf: seq<bool>, f: Field, v: nat): (r: seq<bool>)
    requires sh.Valid() && |buf| == sh.BitSize() && ValidField(sh, f)
    ensures |r| == |buf|
    ensures Decode(sh, r) == SetField(sh, Decode(sh, buf), f, v)
  {
    FieldsDisjoint(sh, f, f);
    var r := Store(buf, Start(sh, f), Width(sh, f), v);
    StoreDecode(sh, buf, f, v);
    r
  }

  /** Loading a field reads the decoded field; in particular the
      first-element head reads the next field of index 0. */
  lemma LoadDecode(sh: Shape, buf: seq<bool>, f: Field)
    requires sh.Valid() && |buf| == sh.BitSize() && ValidField(sh, f)
    ensures LoadField(sh, buf, f) == GetField(sh, Decode(sh, buf), f)
  {
    if f == FirstHead {
      FieldsDisjoint(sh, FirstHead, Link(0));
    }
  }

  lemma LoadAfterStore(sh: Shape, buf: seq<bool>, f: Field, v: nat, g: Field)
    requires sh.Valid() && |buf| == sh.BitSize() && ValidField(sh, f) && ValidField(sh, g)
    ensures End(sh, f) <= |buf|
    ensures LoadField(sh, Store(buf, Start(sh, f), Width(sh, f), v), g)
         == if Canon(f) == Canon(g) then v % Pow2(Width(sh, f)) else LoadField(sh, buf, g)
  {
    FieldsDisjoint(sh, f, g);
    FieldsDisjoint(sh, g, g);
    var r := Store(buf, Start(sh, f), Width(sh, f), v);
    if Canon(f) != Canon(g) {
      LoadFrame(buf, r, Start(sh, g), Width(sh, g));
    }
  }

  lemma StoreDecode(sh: Shape, buf: seq<bool>, f: Field, v: nat)
    requires sh.Valid() && |buf| == sh.BitSize() && ValidField(sh, f)
    ensures End(sh, f) <= |buf|
    ensures Decode(sh, Store(buf, Start(sh, f), Width(sh, f), v))
         == Decode(sh, buf).Put(f, v % Pow2(Width(sh, f)))
  {
    FieldsDisjoint(sh, f, f);
    var r := Store(buf, Start(sh, f), Width(sh, f), v);
    forall g | ValidField(sh, g)
      ensures LoadField(sh, r, g) == if Canon(f) == Canon(g) then v % Pow2(Width(sh, f)) else LoadField(sh, buf, g)
    {
      LoadAfterStore(sh, buf, f, v, g);
    }
    DecodeChanged(sh, buf, r, f, v % Pow2(Width(sh, f)));
  }

  /** A buffer whose fields all load as in `buf` except the field `f` (and
      the field it shares bits with), which loads as `x`, decodes to the
      view of `buf` with `f` set to `x`. */
  lemma DecodeChanged(sh: Shape, buf: seq<bool>, r: seq<bool>, f: Field, x: nat)
    requires sh.Valid() && |buf| == sh.BitSize() && |r| == sh.BitSize() && ValidField(sh, f)
    requires forall g {:trigger LoadField(sh, r, g)} :: ValidField(sh, g) ==>
      LoadField(sh, r, g) == if Canon(f) == Canon(g) then x else LoadField(sh, buf, g)
    ensures Decode(sh, r) == Decode(sh, buf).Put(f, x)
  {
    var w, w' := Decode(sh, buf), Decode(sh, r);
    assert LoadField(sh, r, FreeHead) == w'.free;
    assert w'.links == w.Put(f, x).links by {
      forall i | 0 <= i <= sh.maxSize
        ensures w'.links[i] == if Canon(f) == Link(i) then x else w.links[i]
      {
        assert LoadField(sh, r, Link(i)) == w'.links[i];
      }
    }
    assert w'.vals == w.Put(f, x).vals by {
      forall i | 0 <= i < sh.maxSize
        ensures w'.vals[i] == if f == Value(i + 1) then x else w.vals[i]
      {
        assert LoadField(sh, r, Value(i + 1)) == w'.vals[i];
      }
    }
  }
}
