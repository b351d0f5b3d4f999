/** Bit-level access to the list's byte buffer.

    The buffer is modelled as a sequence of bits: bit `k` of the buffer is bit
    `k % 8` of byte `k / 8`. `Store` and `Load` are the two primitives every
    field accessor of the list is built on; both work least significant bit
    first and may span byte boundaries freely. */
module Bits {

  function Pow2(n: nat): (r: nat)
    ensures r >= 1
  {
    if n == 0 then 1 else 2 * Pow2(n - 1)
  }

  /** Bit `i` of `v`: what the store loop tests with `value & (1 << i)`. */
  function Bit(v: nat, i: nat): bool
  {
    (v / Pow2(i)) % 2 == 1
  }

  /** The low `w` bits of `v`, least significant first. */
  function ToBits(v: nat, w: nat): (s: seq<bool>)
    ensures |s| == w
  {
    if w == 0 then [] else [v % 2 == 1] + ToBits(v / 2, w - 1)
  }

  /** The number whose binary digits, least significant first, are `s`. */
  function FromBits(s: seq<bool>): (r: nat)
    ensures r < Pow2(|s|)
  {
    if s == [] then 0 else (if s[0] then 1 else 0) + 2 * FromBits(s[1..])
  }

  /** `load<w>(pos)`: the `w`-bit number stored at bit `pos`. */
  function Load(buf: seq<bool>, pos: nat, w: nat): (r: nat)
    requires pos + w <= |buf|
    ensures r < Pow2(w)
  {
    FromBits(buf[pos..pos + w])
  }

  /** `store<w>(pos, v)`: writes bit `i` of `v` to bit `pos + i` for every
      `i < w`; the bits outside `[pos, pos + w)` are left alone, so a later
      `Load` of the same range returns `v` truncated to `w` bits. */
  function Store(buf: seq<bool>, pos: nat, w: nat, v: nat): (r: seq<bool>)
    requires pos + w <= |buf|
    ensures |r| == |buf|
    ensures forall i :: 0 <= i < w ==> r[pos + i] == Bit(v, i)
    ensures forall k :: 0 <= k < |buf| && !(pos <= k < pos + w) ==> r[k] == buf[k]
    ensures Load(r, pos, w) == v % Pow2(w)
  {
    var r := buf[..pos] + ToBits(v, w) + buf[pos + w..];
    assert r[pos..pos + w] == ToBits(v, w);
    FromToBits(v, w);
    forall i | 0 <= i < w
      ensures r[pos + i] == Bit(v, i)
    {
      ToBitsAt(v, w, i);
    }
    r
  }

  // ---------------------------------------------------------------------
  // Arithmetic on quotients and remainders

  lemma MulLe(a: nat, b: nat, c: nat)
    requires a <= b
    ensures a * c <= b * c
  {
  }

  lemma ModBelow(v: nat, m: nat)
    requires m > 0
    ensures v < m ==> v % m == v
  {
  }

  lemma DivModUnique(n: nat, d: nat, q: nat, r: nat)
    requires d > 0 && r < d && n == d * q + r
    ensures n / d == q && n % d == r
  {
    var q', r' := n / d, n % d;
    assert n == d * q' + r';
    if q' > q {
      MulLe(q + 1, q', d);
    } else if q' < q {
      MulLe(q' + 1, q, d);
    }
  }

  lemma DivTwice(v: nat, n: nat)
    ensures v / 2 / Pow2(n) == v / Pow2(n + 1)
  {
    var m := Pow2(n);
    var a, b := (v / 2) / m, (v / 2) % m;
    assert v / 2 == m * a + b;
    assert v == 2 * m * a + (2 * b + v % 2);
    DivModUnique(v, 2 * m, a, 2 * b + v % 2);
  }

  /** Dropping the lowest bit and truncating to `w - 1` bits commutes with
      truncating to `w` bits. */
  lemma ModSplit(v: nat, w: nat)
    requires w >= 1
    ensures v % Pow2(w) == v % 2 + 2 * ((v / 2) % Pow2(w - 1))
  {
    var m := Pow2(w - 1);
    var a, b := (v / 2) / m, (v / 2) % m;
    assert v / 2 == m * a + b;
    assert v == 2 * m * a + (2 * b + v % 2);
    DivModUnique(v, 2 * m, a, 2 * b + v % 2);
  }

  lemma {:induction false} ToBitsAt(v: nat, w: nat, i: nat)
    requires i < w
    ensures ToBits(v, w)[i] == Bit(v, i)
  {
    if i > 0 {
      ToBitsAt(v / 2, w - 1, i - 1);
      DivTwice(v, i - 1);
    }
  }

  /** Reading back `w` stored bits of `v` gives `v` modulo `2^w`. */
  lemma {:induction false} FromToBits(v: nat, w: nat)
    ensures FromBits(ToBits(v, w)) == v % Pow2(w)
  {
    if w > 0 {
      assert ToBits(v, w)[1..] == ToBits(v / 2, w - 1);
      FromToBits(v / 2, w - 1);
      ModSplit(v, w);
    }
  }

  // ---------------------------------------------------------------------
  // Framing

  /** A load sees only the bits of its own range. */
  lemma LoadFrame(a: seq<bool>, b: seq<bool>, pos: nat, w: nat)
    requires pos + w <= |a| && pos + w <= |b|
    requires forall k :: pos <= k < pos + w ==> a[k] == b[k]
    ensures Load(a, pos, w) == Load(b, pos, w)
  {
    assert a[pos..pos + w] == b[pos..pos + w];
  }

  /** Stores into disjoint ranges commute. */
  lemma StoreCommute(buf: seq<bool>, p: nat, w: nat, v: nat, q: nat, u: nat, x: nat)
    requires p + w <= |buf| && q + u <= |buf|
    requires p + w <= q || q + u <= p
    ensures Store(Store(buf, p, w, v), q, u, x) == Store(Store(buf, q, u, x), p, w, v)
  {
    var a := Store(Store(buf, p, w, v), q, u, x);
    var b := Store(Store(buf, q, u, x), p, w, v);
    forall k | 0 <= k < |buf|
      ensures a[k] == b[k]
    {
      if p <= k < p + w {
        assert a[p + (k - p)] == Bit(v, k - p);
        assert b[p + (k - p)] == Bit(v, k - p);
      } else if q <= k < q + u {
        assert a[q + (k - q)] == Bit(x, k - q);
        assert b[q + (k - q)] == Bit(x, k - q);
      }
    }
  }
}
