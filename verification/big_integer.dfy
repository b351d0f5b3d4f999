/** `big_intiger`: a non-negative integer held as little-endian chunks
    (`data`, a vector of `uint32_t`) in base 10^9, so that every chunk
    carries nine decimal digits.

    Chunk sequences are `seq<nat>`; the 32-bit cells of the source's
    intermediate vectors are modelled with an explicit `% U32` on every
    store, and the proofs show that these reductions never change a
    value. */
module BigInteger {
  import opened Bits

  /** `max_size`: the chunk base. */
  const Base: nat := 1_000_000_000

  /** The range of a `uint32_t` cell. */
  const U32: nat := 0x1_0000_0000

  /** The range of a `uint64_t`. */
  const U64: nat := 0x1_0000_0000_0000_0000

  /** The largest value a cell holds between the steps of `multiply`:
      one more than the largest carry. */
  const Cap: nat := Base + 1

  function Pow(b: nat, e: nat): nat
  {
    if e == 0 then 1 else b * Pow(b, e - 1)
  }

  /** The number the chunks stand for: the sum of `c[i] * Base^i`. */
  function Val(c: seq<nat>): nat
  {
    if c == [] then 0 else c[0] + Base * Val(c[1..])
  }

  /** Every chunk is below the base. */
  predicate Chunks(c: seq<nat>)
  {
    forall i :: 0 <= i < |c| ==> c[i] < Base
  }

  /** The representation `shrink` leaves: at least one chunk and no zero
      chunk on top unless it is the only one. */
  predicate Normal(c: seq<nat>)
  {
    Chunks(c) && |c| >= 1 && (|c| == 1 || c[|c| - 1] != 0)
  }

  // ---------------------------------------------------------------------
  // Arithmetic of powers and of `Val`

  lemma {:induction false} PowPositive(b: nat, e: nat)
    requires b >= 1
    ensures Pow(b, e) >= 1
  {
    if e > 0 {
      PowPositive(b, e - 1);
      MulLe(1, b, Pow(b, e - 1));
    }
  }

  lemma {:induction false} PowAdd(b: nat, m: nat, n: nat)
    ensures Pow(b, m + n) == Pow(b, m) * Pow(b, n)
  {
    if m > 0 {
      PowAdd(b, m - 1, n);
      var x, y := Pow(b, m - 1), Pow(b, n);
      assert Pow(b, m + n) == b * Pow(b, m - 1 + n);
      assert b * (x * y) == (b * x) * y;
    }
  }

  lemma {:induction false} PowSquare(b: nat, k: nat)
    ensures Pow(b * b, k) == Pow(b, 2 * k)
  {
    if k > 0 {
      PowSquare(b, k - 1);
      calc {
        Pow(b * b, k);
        (b * b) * Pow(b, 2 * k - 2);
        b * (b * Pow(b, 2 * k - 2));
        { assert Pow(b, 2 * k - 1) == b * Pow(b, 2 * k - 2); }
        b * Pow(b, 2 * k - 1);
      }
    }
  }

  lemma {:induction false} ValAppend(c: seq<nat>, d: nat)
    ensures Val(c + [d]) == Val(c) + d * Pow(Base, |c|)
  {
    if c != [] {
      assert (c + [d])[1..] == c[1..] + [d];
      ValAppend(c[1..], d);
      var p := Pow(Base, |c| - 1);
      calc {
        Val(c + [d]);
        c[0] + Base * (Val(c[1..]) + d * p);
        c[0] + Base * Val(c[1..]) + d * (Base * p);
      }
    }
  }

  /** The value of a prefix one chunk longer. */
  lemma ValPrefix(c: seq<nat>, i: nat)
    requires i < |c|
    ensures Val(c[..i + 1]) == Val(c[..i]) + c[i] * Pow(Base, i)
  {
    assert c[..i + 1] == c[..i] + [c[i]];
    ValAppend(c[..i], c[i]);
  }

  /** Changing chunk `p` to `x` changes the value by `(x - c[p]) * Base^p`. */
  lemma {:induction false} ValUpdate(c: seq<nat>, p: nat, x: nat)
    requires p < |c|
    ensures Val(c[p := x]) + c[p] * Pow(Base, p) == Val(c) + x * Pow(Base, p)
  {
    if p == 0 {
      assert c[0 := x][1..] == c[1..];
    } else {
      var d := c[p := x];
      assert d[0] == c[0] && d[1..] == c[1..][p - 1 := x];
      ValUpdate(c[1..], p - 1, x);
      var q, v, v' := Pow(Base, p - 1), Val(c[1..]), Val(c[1..][p - 1 := x]);
      assert Val(d) == c[0] + Base * v';
      assert Pow(Base, p) == Base * q;
      UpdateArith(c[0], v, v', c[p], x, q);
    }
  }

  lemma UpdateArith(c0: nat, v: nat, v': nat, a: nat, x: nat, q: nat)
    requires v' + a * q == v + x * q
    ensures c0 + Base * v' + a * (Base * q) == c0 + Base * v + x * (Base * q)
  {
    ScaleSum(Base, v', a * q, v, x * q);
    assert a * (Base * q) == Base * (a * q) && x * (Base * q) == Base * (x * q);
  }

  /** Equal sums stay equal when scaled. */
  lemma ScaleSum(k: nat, a: nat, b: nat, c: nat, d: nat)
    requires a + b == c + d
    ensures k * a + k * b == k * c + k * d
  {
    assert k * (a + b) == k * a + k * b && k * (c + d) == k * c + k * d;
  }

  /** Chunks below the base stand for a number below `Base^|c|`. */
  lemma {:induction false} ValBelow(c: seq<nat>)
    requires Chunks(c)
    ensures Val(c) < Pow(Base, |c|)
  {
    if c != [] {
      ValBelow(c[1..]);
      MulLe(Val(c[1..]) + 1, Pow(Base, |c| - 1), Base);
    }
  }

  /** Every chunk contributes at most the whole value. */
  lemma {:induction false} ValAtLeast(c: seq<nat>, h: nat)
    requires h < |c|
    ensures c[h] * Pow(Base, h) <= Val(c)
  {
    if h > 0 {
      ValAtLeast(c[1..], h - 1);
      MulLe(c[h] * Pow(Base, h - 1), Val(c[1..]), Base);
    }
  }

  /** A cell below which the value lies under the next power of the base
      holds less than the base. */
  lemma TopChunkBelow(c: seq<nat>, t: nat)
    requires t < |c| && Val(c) < Pow(Base, t + 1)
    ensures c[t] < Base
  {
    ValAtLeast(c, t);
    if c[t] >= Base {
      MulLe(Base, c[t], Pow(Base, t));
    }
  }

  // ---------------------------------------------------------------------
  // `shrink` and the constructors

  /** `shrink`: pops zero chunks off the top while more than one chunk is
      left. The value is unchanged and only zeros are dropped. */
  function Shrink(c: seq<nat>): (r: seq<nat>)
    ensures |r| <= |c| && r == c[..|r|]
    ensures forall i :: |r| <= i < |c| ==> c[i] == 0
    ensures Val(r) == Val(c)
    ensures c != [] ==> r != [] && (|r| == 1 || r[|r| - 1] != 0)
  {
    if |c| >= 2 && c[|c| - 1] == 0 then
      var p := c[..|c| - 1];
      assert c == p + [0];
      ValAppend(p, 0);
      Shrink(p)
    else
      c
  }

  /** Normal chunks are what `shrink` leaves them as. */
  lemma ShrinkNormal(c: seq<nat>)
    requires Normal(c)
    ensures Shrink(c) == c
  {
  }

  /** The default constructor: the single chunk 0. */
  function Zero(): (r: seq<nat>)
    ensures Normal(r) && Val(r) == 0
  {
    [0]
  }

  /** The constructor from a chunk vector: the chunks, shrunk. Any vector
      is accepted; only one whose chunks are below the base is normal. */
  function FromChunks(vec: seq<nat>): (r: seq<nat>)
    ensures Val(r) == Val(vec) && |r| <= |vec| && r == vec[..|r|]
    ensures vec != [] ==> |r| >= 1 && (|r| == 1 || r[|r| - 1] != 0)
    ensures Chunks(vec) && vec != [] ==> Normal(r)
  {
    Shrink(vec)
  }

  /** The `uint64_t` constructor as written: `num % Base` chunks while
      `num` is not zero. The chunks are exact and have no zero on top, but
      0 gives no chunk at all. */
  function FromU64(num: nat): (r: seq<nat>)
    requires num < U64
    ensures Chunks(r) && Val(r) == num
    ensures r == [] <==> num == 0
    ensures r != [] ==> Normal(r)
  {
    if num == 0 then [] else [num % Base] + FromU64(num / Base)
  }

  /** `big_intiger(uint64_t(0))` holds no chunk, so `tostr()` on it would
      read `data.back()` of an empty vector, which `ToStr` cannot accept,
      while the default constructor holds the chunk 0. */
  lemma FromU64ZeroIsEmpty()
    ensures FromU64(0) == [] && FromU64(0) != Zero()
    ensures Val(FromU64(0)) == Val(Zero())
  {
  }

  /** The `uint64_t` constructor with 0 giving the default constructor's
      chunk 0: always a normal representation that `tostr()` can print. */
  function FromU64Fixed(num: nat): (r: seq<nat>)
    requires num < U64
    ensures Normal(r) && Val(r) == num
    ensures num != 0 ==> r == FromU64(num)
  {
    if num == 0 then Zero() else FromU64(num)
  }

  // ---------------------------------------------------------------------
  // Decimal strings

  predicate IsDigit(ch: char)
  {
    '0' <= ch <= '9'
  }

  predicate DigitString(s: string)
  {
    forall i :: 0 <= i < |s| ==> IsDigit(s[i])
  }

  /** A digit string without leading zeros: "0" or one starting with a
      non-zero digit. */
  predicate Canonical(s: string)
  {
    DigitString(s) && |s| >= 1 && (s[0] != '0' || |s| == 1)
  }

  function DigitChar(d: nat): (ch: char)
    requires d < 10
    ensures IsDigit(ch)
  {
    ('0' as int + d) as char
  }

  function DigitValue(ch: char): (d: nat)
    requires IsDigit(ch)
    ensures d < 10 && DigitChar(d) == ch
  {
    ch as int - '0' as int
  }

  /** The number a digit string spells; the empty string spells 0. */
  function DecVal(s: string): nat
    requires DigitString(s)
  {
    if s == [] then 0 else 10 * DecVal(s[..|s| - 1]) + DigitValue(s[|s| - 1])
  }

  /** `ss << n`: the decimal spelling of `n`, without leading zeros. */
  function Show(n: nat): (s: string)
    ensures Canonical(s)
  {
    if n < 10 then [DigitChar(n)] else Show(n / 10) + [DigitChar(n % 10)]
  }

  /** `ss << std::setw(w) << n` with fill '0', for `n` below `10^w`:
      exactly `w` digits. */
  function Padded(n: nat, w: nat): (s: string)
    requires n < Pow(10, w)
    ensures DigitString(s) && |s| == w
  {
    if w == 0 then [] else Padded(n / 10, w - 1) + [DigitChar(n % 10)]
  }

  lemma BaseIsPow()
    ensures Pow(10, 9) == Base
  {
  }

  lemma {:induction false} DecValAppend(a: string, b: string)
    requires DigitString(a) && DigitString(b)
    ensures DigitString(a + b) && DecVal(a + b) == DecVal(a) * Pow(10, |b|) + DecVal(b)
  {
    if b == [] {
      assert a + b == a;
    } else {
      var ab := a + b;
      var b' := b[..|b| - 1];
      var d := DigitValue(b[|b| - 1]);
      assert ab[..|ab| - 1] == a + b' && ab[|ab| - 1] == b[|b| - 1];
      DecValAppend(a, b');
      var x, p := DecVal(a), Pow(10, |b'|);
      assert DecVal(ab) == 10 * DecVal(a + b') + d;
      assert DecVal(b) == 10 * DecVal(b') + d;
      assert Pow(10, |b|) == 10 * p;
      ShiftDigit(x, p, DecVal(b'));
    }
  }

  lemma ShiftDigit(x: nat, p: nat, y: nat)
    ensures 10 * (x * p + y) == x * (10 * p) + 10 * y
  {
  }

  lemma {:induction false} DecValBelow(s: string)
    requires DigitString(s)
    ensures DecVal(s) < Pow(10, |s|)
  {
    if s != [] {
      DecValBelow(s[..|s| - 1]);
      MulLe(DecVal(s[..|s| - 1]) + 1, Pow(10, |s| - 1), 10);
    }
  }

  lemma {:induction false} DecValShow(n: nat)
    ensures DecVal(Show(n)) == n
  {
    if n >= 10 {
      var s := Show(n);
      assert s[..|s| - 1] == Show(n / 10);
      DecValShow(n / 10);
    }
  }

  lemma {:induction false} DecValPadded(n: nat, w: nat)
    requires n < Pow(10, w)
    ensures DecVal(Padded(n, w)) == n
  {
    if w > 0 {
      var s := Padded(n, w);
      assert s[..|s| - 1] == Padded(n / 10, w - 1);
      DecValPadded(n / 10, w - 1);
    }
  }

  /** A non-zero leading digit spells a positive number. */
  lemma {:induction false} DecValPositive(s: string)
    requires DigitString(s) && |s| >= 1 && s[0] != '0'
    ensures DecVal(s) >= 1
  {
    if |s| > 1 {
      DecValPositive(s[..|s| - 1]);
    }
  }

  /** `Show` spells a canonical string back. */
  lemma {:induction false} ShowDecVal(s: string)
    requires Canonical(s)
    ensures Show(DecVal(s)) == s
  {
    if |s| > 1 {
      var p := s[..|s| - 1];
      DecValPositive(p);
      ShowDecVal(p);
      var n := DecVal(s);
      DivModUnique(n, 10, DecVal(p), DigitValue(s[|s| - 1]));
      assert s == p + [s[|s| - 1]];
    }
  }

  /** `Padded` spells a `w`-digit string back. */
  lemma {:induction false} PaddedDecVal(s: string, w: nat)
    requires DigitString(s) && |s| == w
    ensures DecVal(s) < Pow(10, w) && Padded(DecVal(s), w) == s
  {
    DecValBelow(s);
    if w > 0 {
      var p := s[..|s| - 1];
      PaddedDecVal(p, w - 1);
      DivModUnique(DecVal(s), 10, DecVal(p), DigitValue(s[|s| - 1]));
      assert s == p + [s[|s| - 1]];
    }
  }

  /** A number below `10^w` is shown in at most `w` digits. */
  lemma {:induction false} ShowLength(n: nat, w: nat)
    requires n < Pow(10, w)
    ensures |Show(n)| <= w || (n == 0 && w == 0)
  {
    if n >= 10 {
      ShowLength(n / 10, w - 1);
    }
  }

  /** The spelling of `q * 10^w + r` with `q >= 1` is `q`'s spelling
      followed by `r` padded to `w` digits. */
  lemma {:induction false} ShowSplit(q: nat, r: nat, w: nat)
    requires q >= 1 && r < Pow(10, w)
    ensures Show(q * Pow(10, w) + r) == Show(q) + Padded(r, w)
  {
    if w > 0 {
      SplitStep(q, r, w);
      ShowSplit(q, r / 10, w - 1);
    } else {
      assert r == 0 && Padded(r, w) == [];
      assert Show(q) + [] == Show(q);
    }
  }

  /** The last digit of `q * 10^w + r`, for `w >= 1`, is the last digit
      of `r`, and the digits before it spell `q * 10^(w - 1) + r / 10`. */
  lemma SplitStep(q: nat, r: nat, w: nat)
    requires q >= 1 && w >= 1 && r < Pow(10, w)
    ensures r / 10 < Pow(10, w - 1)
    ensures Show(q * Pow(10, w) + r) == Show(q * Pow(10, w - 1) + r / 10) + [DigitChar(r % 10)]
    ensures Padded(r, w) == Padded(r / 10, w - 1) + [DigitChar(r % 10)]
  {
    var p := Pow(10, w - 1);
    var n, m := q * Pow(10, w) + r, q * p + r / 10;
    SplitArith(q, p, r);
    DivModUnique(n, 10, m, r % 10);
    PowPositive(10, w - 1);
    MulLe(1, q, 10 * p);
  }

  lemma SplitArith(q: nat, p: nat, r: nat)
    ensures q * (10 * p) + r == 10 * (q * p + r / 10) + r % 10
  {
  }

  // ---------------------------------------------------------------------
  // The string constructor and `tostr`

  /** The string constructor on a digit string: repeatedly cut off the
      last (up to) nine digits and push their value as the next chunk.
      No `shrink` follows, and the empty string gives no chunk. */
  function FromString(s: string): (r: seq<nat>)
    requires DigitString(s)
    ensures Chunks(r) && Val(r) == DecVal(s)
    ensures |r| == (|s| + 8) / 9
  {
    if s == [] then []
    else
      var cut := if |s| >= 9 then |s| - 9 else 0;
      var p, t := s[..cut], s[cut..];
      LastChunk(s, cut);
      [DecVal(t)] + FromString(p)
  }

  /** The last (up to) nine digits of a digit string spell one chunk, and
      the digits before them count in units of the base. */
  lemma LastChunk(s: string, cut: nat)
    requires DigitString(s) && cut <= |s| && cut == (if |s| >= 9 then |s| - 9 else 0)
    ensures DecVal(s[cut..]) < Base && DecVal(s) == DecVal(s[cut..]) + Base * DecVal(s[..cut])
  {
    var p, t := s[..cut], s[cut..];
    assert s == p + t;
    DecValAppend(p, t);
    DecValBelow(t);
    BaseIsPow();
    PowMono(10, |t|, 9);
    if cut == 0 {
      assert p == [] && DecVal(p) == 0;
      assert DecVal(s) == DecVal(t);
    } else {
      assert |t| == 9;
      assert DecVal(s) == DecVal(p) * Base + DecVal(t);
    }
  }

  lemma {:induction false} PowMono(b: nat, m: nat, n: nat)
    requires b >= 1 && m <= n
    ensures Pow(b, m) <= Pow(b, n)
  {
    if m < n {
      PowMono(b, m, n - 1);
      MulLe(1, b, Pow(b, n - 1));
    }
  }

  /** `tostr()`: the top chunk as it is, then every lower chunk, from the
      top down, zero-padded to nine digits. The source reads
      `data.back()`, so there must be a chunk. */
  function ToStr(c: seq<nat>): (s: string)
    requires |c| >= 1 && Chunks(c)
    ensures DigitString(s) && DecVal(s) == Val(c)
  {
    BaseIsPow();
    if |c| == 1 then
      DecValShow(c[0]);
      Show(c[0])
    else
      var s := ToStr(c[1..]) + Padded(c[0], 9);
      DecValAppend(ToStr(c[1..]), Padded(c[0], 9));
      DecValPadded(c[0], 9);
      s
  }

  /** On a normal representation `tostr()` is the decimal spelling of the
      value: no leading zeros, and "0" for zero. */
  lemma {:induction false} ToStrIsDecimal(c: seq<nat>)
    requires Normal(c)
    ensures ToStr(c) == Show(Val(c))
  {
    if |c| == 1 {
      assert c[1..] == [] && Val(c) == c[0];
    } else {
      BaseIsPow();
      var t := c[1..];
      assert t[|t| - 1] == c[|c| - 1];
      ToStrIsDecimal(t);
      ValAtLeast(t, |t| - 1);
      PowPositive(Base, |t| - 1);
      MulLe(1, t[|t| - 1], Pow(Base, |t| - 1));
      assert Val(c) == Val(t) * Pow(10, 9) + c[0];
      ShowSplit(Val(t), c[0], 9);
    }
  }

  /** Reading back what `tostr()` printed gives the same chunks. */
  lemma {:induction false} FromStringToStr(c: seq<nat>)
    requires |c| >= 1 && Chunks(c)
    ensures FromString(ToStr(c)) == c
  {
    BaseIsPow();
    var s := ToStr(c);
    if |c| == 1 {
      ShowLength(c[0], 9);
      DecValShow(c[0]);
    } else {
      var a, b := ToStr(c[1..]), Padded(c[0], 9);
      assert s == a + b;
      assert s[..|s| - 9] == a && s[|s| - 9..] == b;
      FromStringToStr(c[1..]);
      DecValPadded(c[0], 9);
    }
  }

  /** Printing what the string constructor read gives back the string,
      for any digit string without leading zeros. */
  lemma {:induction false} ToStrFromString(s: string)
    requires Canonical(s)
    ensures FromString(s) != [] && ToStr(FromString(s)) == s
  {
    if |s| <= 9 {
      assert s[0..] == s;
      ShowDecVal(s);
    } else {
      var p, t := s[..|s| - 9], s[|s| - 9..];
      ToStrFromString(p);
      PaddedDecVal(t, 9);
      assert s == p + t;
    }
  }

  // ---------------------------------------------------------------------
  // `add`

  /** `i < len1 ? a1[i] : 0`. */
  function ChunkOr0(a: seq<nat>, i: nat): nat
  {
    if i < |a| then a[i] else 0
  }

  /** The value of the first `i` chunks of `a` (all of them once `i` is
      past the end). */
  function ValUpTo(a: seq<nat>, i: nat): nat
  {
    Val(a[..if i <= |a| then i else |a|])
  }

  lemma ValUpToStep(a: seq<nat>, i: nat)
    ensures ValUpTo(a, i + 1) == ValUpTo(a, i) + ChunkOr0(a, i) * Pow(Base, i)
  {
    if i < |a| {
      ValPrefix(a, i);
    }
  }

  /** All-zero cells stand for 0. */
  lemma {:induction false} ValZeros(c: seq<nat>)
    requires forall i :: 0 <= i < |c| ==> c[i] == 0
    ensures Val(c) == 0
  {
    if c != [] {
      ValZeros(c[1..]);
    }
  }

  /** Reducing cell `p` below the base and moving its carry, plus an extra
      carry `c`, into cell `p + 1` adds `z + c * Base` units of `Base^p`
      in place of the old cell. */
  lemma CarryStep(res: seq<nat>, p: nat, z: nat, c: nat)
    requires p + 1 < |res|
    ensures var r := res[p := z % Base][p + 1 := res[p + 1] + c + z / Base];
      Val(r) + res[p] * Pow(Base, p) == Val(res) + (z + c * Base) * Pow(Base, p)
  {
    var q := Pow(Base, p);
    var r1 := res[p := z % Base];
    var y := res[p + 1] + c + z / Base;
    ValUpdate(res, p, z % Base);
    assert r1[p + 1] == res[p + 1];
    ValUpdate(r1, p + 1, y);
    assert Pow(Base, p + 1) == Base * q;
    CarryArith(res[p + 1], c, z, q);
  }

  lemma CarryArith(y: nat, c: nat, z: nat, q: nat)
    ensures (y + c + z / Base) * (Base * q) == y * (Base * q) + (c * Base + Base * (z / Base)) * q
    ensures z % Base * q + (c * Base + Base * (z / Base)) * q == (z + c * Base) * q
  {
    assert z == Base * (z / Base) + z % Base;
  }

  /** The state of `add`'s loop before cell `i`: the cells below `i` are
      chunks, cell `i` holds the carry, the cells above are still 0, and
      the cells stand for the first `i` chunks of both operands. */
  predicate AddInv(a1: seq<nat>, a2: seq<nat>, res: seq<nat>, i: nat)
  {
    i <= |a2| && |res| == |a2| + 1 &&
    (forall k :: 0 <= k < i ==> res[k] < Base) && res[i] <= 1 &&
    (forall k :: i < k < |res| ==> res[k] == 0) &&
    Val(res) == Val(a2[..i]) + ValUpTo(a1, i)
  }

  lemma Distrib3(a: nat, b: nat, c: nat, q: nat)
    ensures (a + b + c) * q == a * q + b * q + c * q
  {
  }

  /** The cell updates of one step of `add`'s loop, in the source's
      `uint32_t` arithmetic: cell `i` takes `x + y`, cell `i + 1` is set to
      its carry, and cell `i` is reduced below `Base`. */
  function AddStep(res: seq<nat>, i: nat, x: nat, y: nat): seq<nat>
    requires i + 1 < |res|
  {
    var cell := (res[i] + (x + y) % U32) % U32;
    res[i := cell % Base][i + 1 := cell / Base]
  }

  /** The value side of one `add` step: the cells gain
      `(a2[i] + a1[i]) * Base^i`. */
  lemma AddCellVal(a1: seq<nat>, a2: seq<nat>, res: seq<nat>, i: nat)
    requires i < |a2| && i + 1 < |res| && res[i + 1] == 0
    requires Val(res) == Val(a2[..i]) + ValUpTo(a1, i)
    ensures var z := res[i] + a2[i] + ChunkOr0(a1, i);
      Val(res[i := z % Base][i + 1 := z / Base]) == Val(a2[..i + 1]) + ValUpTo(a1, i + 1)
  {
    var z := res[i] + a2[i] + ChunkOr0(a1, i);
    assert res[i := z % Base][i + 1 := z / Base] == res[i := z % Base][i + 1 := res[i + 1] + 0 + z / Base];
    CarryStep(res, i, z, 0);
    ValPrefix(a2, i);
    ValUpToStep(a1, i);
    Distrib3(res[i], a2[i], ChunkOr0(a1, i), Pow(Base, i));
  }

  /** One step of `add`'s loop: the cell sum fits a `uint32_t`, and the
      reduced cell with its carry keeps the loop's state. */
  lemma AddCell(a1: seq<nat>, a2: seq<nat>, res: seq<nat>, i: nat)
    requires Chunks(a1) && Chunks(a2) && |a1| <= |a2|
    requires AddInv(a1, a2, res, i) && i < |a2|
    ensures i + 1 < |res| && AddInv(a1, a2, AddStep(res, i, a2[i], ChunkOr0(a1, i)), i + 1)
  {
    var y := ChunkOr0(a1, i);
    var z := res[i] + a2[i] + y;
    var r := res[i := z % Base][i + 1 := z / Base];
    AddCellVal(a1, a2, res, i);
    assert z < U32;
    ModBelow(a2[i] + y, U32);
    ModBelow(z, U32);
    assert AddStep(res, i, a2[i], y) == r;
    assert forall k :: 0 <= k < i + 1 ==> r[k] < Base;
    assert forall k :: i + 1 < k < |r| ==> r[k] == 0;
  }

  /** When `add`'s loop ends, the cells are chunks standing for the sum. */
  lemma AddDone(a1: seq<nat>, a2: seq<nat>, res: seq<nat>)
    requires |a1| <= |a2| && AddInv(a1, a2, res, |a2|)
    ensures Chunks(res) && Val(res) == Val(a1) + Val(a2)
  {
    assert a2[..|a2|] == a2 && a1[..|a1|] == a1;
  }

  /** `add`: the shorter operand's chunks (or 0 past its end) are added to
      the longer one's, cell by cell with the carry, into `len2 + 1` cells,
      which are then shrunk. `operator+` is `add` on a copy of the left
      operand, so here it is this function of the two operands. */
  method Add(a: seq<nat>, b: seq<nat>) returns (r: seq<nat>)
    requires Chunks(a) && Chunks(b)
    ensures Normal(r) && Val(r) == Val(a) + Val(b)
  {
    var switchData := |a| > |b|;
    var a1 := if switchData then b else a;
    var a2 := if switchData then a else b;
    var len1, len2 := |a1|, |a2|;
    var res: seq<nat> := seq(len2 + 1, _ => 0);
    ValZeros(res);
    var i := 0;
    while i < len2
      invariant AddInv(a1, a2, res, i)
    {
      AddCell(a1, a2, res, i);
      res := AddStep(res, i, a2[i], ChunkOr0(a1, i));
      i := i + 1;
    }
    AddDone(a1, a2, res);
    r := Shrink(res);
    assert forall k :: 0 <= k < |r| ==> r[k] == res[k];
  }

  // ---------------------------------------------------------------------
  // `multiply`

  /** The state of `multiply` once rows `0..i-1` are done: the cells stand
      for the first `i` chunks of `a1` times `a2`; all are chunks except
      the last cell row `i - 1` wrote (index `i + len2 - 1`), which holds a
      carry of at most `Cap`; the cells above it are still 0. */
  predicate MulRows(a1: seq<nat>, a2: seq<nat>, res: seq<nat>, i: nat)
  {
    i <= |a1| && |a1| <= |a2| && |res| == 2 * |a2| + 1 &&
    (forall k :: 0 <= k < |res| ==> res[k] <= Cap) &&
    (forall k :: 0 <= k < |res| && k != i + |a2| - 1 ==> res[k] < Base) &&
    (forall k :: i + |a2| <= k < |res| ==> res[k] == 0) &&
    Val(res) == Val(a1[..i]) * Val(a2)
  }

  /** The state of `multiply` inside row `i` before column `j`: the cells
      below `pos = i + j` are chunks, cell `pos` has taken the carries so
      far (at most `2 * Cap`, and at most `Cap` once the row is done), the
      cells above hold at most `Cap` and are chunks except for the previous
      row's last cell, and those from `i + len2` on are still 0. */
  predicate MulRow(a1: seq<nat>, a2: seq<nat>, res: seq<nat>, i: nat, j: nat)
  {
    i < |a1| && |a1| <= |a2| && MulRowBounds(|a2|, res, i, j) && MulRowVal(a1, a2, res, i, j)
  }

  /** The cell bounds of `MulRow`, for a longer operand of `n2` chunks. */
  predicate MulRowBounds(n2: nat, res: seq<nat>, i: nat, j: nat)
  {
    i < n2 && j <= n2 && |res| == 2 * n2 + 1 &&
    (forall k :: 0 <= k < i + j ==> res[k] < Base) &&
    res[i + j] <= 2 * Cap && (j == n2 ==> res[i + j] <= Cap) &&
    (forall k :: i + j < k < |res| ==> res[k] <= Cap) &&
    (forall k :: i + j < k < |res| && k != i + n2 - 1 ==> res[k] < Base) &&
    (forall k :: i + j < k < |res| && k >= i + n2 ==> res[k] == 0)
  }

  /** The value of `MulRow`: rows `0..i-1` done and row `i` up to column
      `j`. */
  predicate MulRowVal(a1: seq<nat>, a2: seq<nat>, res: seq<nat>, i: nat, j: nat)
  {
    i < |a1| && j <= |a2| &&
    Val(res) == Val(a1[..i]) * Val(a2) + a1[i] * Val(a2[..j]) * Pow(Base, i)
  }

  lemma RowStart(a1: seq<nat>, a2: seq<nat>, res: seq<nat>, i: nat)
    requires MulRows(a1, a2, res, i) && i < |a1|
    ensures MulRow(a1, a2, res, i, 0)
  {
    assert a2[..0] == [];
  }

  lemma RowArith(x: nat, v: nat, y: nat, p: nat)
    ensures (x + y * p) * v == x * v + y * v * p
  {
  }

  lemma RowEnd(a1: seq<nat>, a2: seq<nat>, res: seq<nat>, i: nat)
    requires MulRow(a1, a2, res, i, |a2|)
    ensures MulRows(a1, a2, res, i + 1)
  {
    assert a2[..|a2|] == a2;
    ValPrefix(a1, i);
    RowArith(Val(a1[..i]), Val(a2), a1[i], Pow(Base, i));
  }

  /** The cell arithmetic of one `multiply` step stays within `uint32_t`,
      and the carry it moves up is at most `Cap`. */
  lemma CellBounds(x: nat, m: nat)
    requires x <= 2 * Cap && m <= (Base - 1) * (Base - 1)
    ensures x + m % Base < U32
    ensures m / Base + (x + m % Base) / Base <= Cap
  {
  }

  lemma ProductBelow(a: nat, b: nat)
    requires a < Base && b < Base
    ensures a * b <= (Base - 1) * (Base - 1)
  {
    MulLe(a, Base - 1, b);
    MulLe(b, Base - 1, Base - 1);
  }

  lemma CellArith(x: nat, v: nat, y: nat, pi: nat, pj: nat)
    ensures x * (v + y * pj) * pi == x * v * pi + (x * y) * (pi * pj)
  {
  }

  lemma Distrib2(a: nat, b: nat, q: nat)
    ensures (a + b) * q == a * q + b * q
  {
  }

  /** The value side of one `multiply` step: the cells gain
      `a1[i] * a2[j] * Base^(i + j)`. */
  lemma MulCellVal(a1: seq<nat>, a2: seq<nat>, res: seq<nat>, i: nat, j: nat)
    requires i < |a1| && j < |a2| && i + j + 1 < |res|
    requires Val(res) == Val(a1[..i]) * Val(a2) + a1[i] * Val(a2[..j]) * Pow(Base, i)
    ensures var h, m := i + j, a1[i] * a2[j];
      var z := res[h] + m % Base;
      Val(res[h := z % Base][h + 1 := res[h + 1] + m / Base + z / Base])
        == Val(a1[..i]) * Val(a2) + a1[i] * Val(a2[..j + 1]) * Pow(Base, i)
  {
    var h, m, p := i + j, a1[i] * a2[j], Pow(Base, i + j);
    var z, c := res[h] + m % Base, m / Base;
    CarryStep(res, h, z, c);
    assert z + c * Base == res[h] + m;
    Distrib2(res[h], m, p);
    ValPrefix(a2, j);
    PowAdd(Base, i, j);
    CellArith(a1[i], Val(a2[..j]), a2[j], Pow(Base, i), Pow(Base, j));
  }

  /** The cell updates of one step of `multiply`'s inner loop, in the
      source's `uint32_t` arithmetic: with the `uint64_t` product
      `multres = x * y`, cell `pos` takes `multres % Base`, cell `pos + 1`
      takes `multres / Base` and the carry out of cell `pos`, and cell
      `pos` is reduced below `Base`. */
  function MulStep(res: seq<nat>, pos: nat, x: nat, y: nat): seq<nat>
    requires pos + 1 < |res|
  {
    var multres := x * y;
    var low := (res[pos] + multres % Base) % U32;
    var high := (res[pos + 1] + (multres / Base + low / Base)) % U32;
    res[pos := low % Base][pos + 1 := high]
  }

  /** One step of `multiply`'s inner loop at `pos = i + j`: with
      `m = a1[i] * a2[j]`, cell `pos` first takes `m % Base`, cell
      `pos + 1` takes `m / Base` plus the carry of cell `pos`, which is then
      reduced. Nothing overflows a `uint32_t` cell, and the loop's state
      moves on to column `j + 1`. */
  lemma MulCell(a1: seq<nat>, a2: seq<nat>, res: seq<nat>, i: nat, j: nat)
    requires Chunks(a1) && Chunks(a2)
    requires MulRow(a1, a2, res, i, j) && j < |a2|
    ensures i + j + 1 < |res| && MulRow(a1, a2, MulStep(res, i + j, a1[i], a2[j]), i, j + 1)
  {
    MulStepExact(res, i + j, a1[i], a2[j]);
    MulCellVal(a1, a2, res, i, j);
    MulCellBounds(|a2|, res, i, j, a1[i], a2[j]);
  }

  /** One step of `multiply` keeps the cell bounds of `MulRow`. */
  lemma MulCellBounds(n2: nat, res: seq<nat>, i: nat, j: nat, x: nat, y: nat)
    requires MulRowBounds(n2, res, i, j) && j < n2 && x < Base && y < Base
    ensures i + j + 1 < |res| && MulRowBounds(n2, MulStep(res, i + j, x, y), i, j + 1)
  {
    var h := i + j;
    MulStepExact(res, h, x, y);
    var m := x * y;
    var z := res[h] + m % Base;
    var r := res[h := z % Base][h + 1 := res[h + 1] + m / Base + z / Base];
    assert forall k :: 0 <= k < h + 1 ==> r[k] < Base;
    assert forall k :: h + 1 < k < |r| ==> r[k] == res[k];
  }

  /** Within the bounds `multiply` keeps, its `uint32_t` cell updates do
      not wrap, and the carry into cell `h + 1` is at most `Cap`. */
  lemma MulStepExact(res: seq<nat>, h: nat, x: nat, y: nat)
    requires h + 1 < |res| && x < Base && y < Base && res[h] <= 2 * Cap && res[h + 1] <= Cap
    ensures var m := x * y;
      var z := res[h] + m % Base;
      m / Base + z / Base <= Cap &&
      MulStep(res, h, x, y) == res[h := z % Base][h + 1 := res[h + 1] + m / Base + z / Base]
  {
    var m := x * y;
    ProductBelow(x, y);
    CellBounds(res[h], m);
    var z := res[h] + m % Base;
    ModBelow(z, U32);
    ModBelow(res[h + 1] + (m / Base + z / Base), U32);
  }

  lemma ProductLess(a: nat, b: nat, x: nat, y: nat)
    requires a < x && b < y
    ensures a * b < x * y
  {
    MulLe(a, x, b);
    MulLe(b + 1, y, x);
  }

  /** Cells standing for a product of numbers below `Base^n1` and
      `Base^n2` have a chunk at index `n1 + n2 - 1`. */
  lemma TopOfProduct(res: seq<nat>, n1: nat, n2: nat, x: nat, y: nat)
    requires x < Pow(Base, n1) && y < Pow(Base, n2)
    requires 1 <= n1 + n2 <= |res| && Val(res) == x * y
    ensures res[n1 + n2 - 1] < Base
  {
    var t: nat := n1 + n2 - 1;
    PowAdd(Base, n1, n2);
    ProductLess(x, y, Pow(Base, n1), Pow(Base, n2));
    assert Val(res) < Pow(Base, t + 1);
    TopChunkBelow(res, t);
  }

  /** A product of `len1`- and `len2`-chunk numbers fits `len1 + len2`
      chunks, so cell `len1 + len2 - 1` of cells holding it is a chunk. */
  lemma ProductTop(a1: seq<nat>, a2: seq<nat>, res: seq<nat>)
    requires Chunks(a1) && Chunks(a2) && 1 <= |a1| + |a2| <= |res|
    requires Val(res) == Val(a1) * Val(a2)
    ensures res[|a1| + |a2| - 1] < Base
  {
    ValBelow(a1);
    ValBelow(a2);
    TopOfProduct(res, |a1|, |a2|, Val(a1), Val(a2));
  }

  lemma AllChunks(c: seq<nat>, t: int)
    requires forall k :: 0 <= k < |c| && k != t ==> c[k] < Base
    requires 0 <= t < |c| ==> c[t] < Base
    ensures Chunks(c)
  {
  }

  /** When `multiply`'s loops end the cells are chunks standing for the
      product: the last cell written is a chunk too, because the product
      is below `Base^(len1 + len2)`. */
  lemma MulDone(a1: seq<nat>, a2: seq<nat>, res: seq<nat>)
    requires Chunks(a1) && Chunks(a2) && MulRows(a1, a2, res, |a1|)
    ensures Chunks(res) && Val(res) == Val(a1) * Val(a2)
  {
    assert a1[..|a1|] == a1;
    if 1 <= |a1| + |a2| {
      ProductTop(a1, a2, res);
    }
    AllChunks(res, |a1| + |a2| - 1);
  }

  lemma MulCommutes(x: nat, y: nat)
    ensures x * y == y * x
  {
  }

  /** One row of `multiply`: chunk `a1[i]` times every chunk of `a2`,
      added into the cells from `i` on. */
  method MultiplyRow(a1: seq<nat>, a2: seq<nat>, res0: seq<nat>, i: nat) returns (res: seq<nat>)
    requires Chunks(a1) && Chunks(a2) && MulRows(a1, a2, res0, i) && i < |a1|
    ensures MulRows(a1, a2, res, i + 1)
  {
    res := res0;
    RowStart(a1, a2, res, i);
    var j := 0;
    while j < |a2|
      invariant MulRow(a1, a2, res, i, j)
    {
      MulCell(a1, a2, res, i, j);
      res := MulStep(res, i + j, a1[i], a2[j]);
      j := j + 1;
    }
    RowEnd(a1, a2, res, i);
  }

  /** `multiply`: schoolbook multiplication of the shorter operand `a1` by
      the longer `a2` into `2 * len2 + 1` cells, row by row, then shrunk.
      `operator*` is `multiply` on a copy of the left operand, so here it
      is this function of the two operands. */
  method Multiply(a: seq<nat>, b: seq<nat>) returns (r: seq<nat>)
    requires Chunks(a) && Chunks(b)
    ensures Normal(r) && Val(r) == Val(a) * Val(b)
  {
    var switchData := |a| > |b|;
    var a1 := if switchData then b else a;
    var a2 := if switchData then a else b;
    var res: seq<nat> := seq(2 * |a2| + 1, _ => 0);
    ValZeros(res);
    var i := 0;
    while i < |a1|
      invariant MulRows(a1, a2, res, i)
    {
      res := MultiplyRow(a1, a2, res, i);
      i := i + 1;
    }
    MulDone(a1, a2, res);
    MulCommutes(Val(a1), Val(a2));
    r := Shrink(res);
    assert forall k :: 0 <= k < |r| ==> r[k] == res[k];
  }

  // ---------------------------------------------------------------------
  // `power`

  /** One round of square-and-multiply keeps `res * cur^e` fixed: an odd
      exponent first moves one factor `cur` into `res`; then the exponent
      halves while `cur` is squared. */
  lemma PowerStep(rv: nat, c: nat, e: nat)
    requires e > 0
    ensures e % 2 == 1 ==> (rv * c) * Pow(c * c, e / 2) == rv * Pow(c, e)
    ensures e % 2 == 0 ==> rv * Pow(c * c, e / 2) == rv * Pow(c, e)
  {
    PowSquare(c, e / 2);
    if e % 2 == 1 {
      assert Pow(c, e) == c * Pow(c, 2 * (e / 2));
      assert (rv * c) * Pow(c, 2 * (e / 2)) == rv * (c * Pow(c, 2 * (e / 2)));
    } else {
      assert e == 2 * (e / 2);
    }
  }

  /** `power(exp)`: binary exponentiation from `big_intiger res(1)`, with
      `multiply` for every step; `exp` is a `uint32_t`. */
  method Power(x: seq<nat>, exp: nat) returns (r: seq<nat>)
    requires Chunks(x) && exp < U32
    ensures Normal(r) && Val(r) == Pow(Val(x), exp)
  {
    var res := FromU64Fixed(1);
    var cur := x;
    var e := exp;
    while e != 0
      invariant Normal(res) && Chunks(cur)
      invariant Val(res) * Pow(Val(cur), e) == Pow(Val(x), exp)
    {
      PowerStep(Val(res), Val(cur), e);
      if e % 2 == 1 {
        res := Multiply(res, cur);
      }
      e := e / 2;
      cur := Multiply(cur, cur);
    }
    r := res;
  }

  // ---------------------------------------------------------------------
  // `digit_sum`

  /** The sum of the decimal digits of `n` (0 for 0). */
  function ChunkDigitSum(n: nat): nat
  {
    if n == 0 then 0 else n % 10 + ChunkDigitSum(n / 10)
  }

  /** The sum of the decimal digits of every chunk. */
  function ChunksDigitSum(c: seq<nat>): nat
  {
    if c == [] then 0 else ChunkDigitSum(c[0]) + ChunksDigitSum(c[1..])
  }

  /** The sum of the digits of a digit string. */
  function SumOfDigits(s: string): nat
    requires DigitString(s)
  {
    if s == [] then 0 else SumOfDigits(s[..|s| - 1]) + DigitValue(s[|s| - 1])
  }

  lemma {:induction false} SumOfDigitsAppend(a: string, b: string)
    requires DigitString(a) && DigitString(b)
    ensures DigitString(a + b) && SumOfDigits(a + b) == SumOfDigits(a) + SumOfDigits(b)
  {
    if b != [] {
      var b' := b[..|b| - 1];
      assert (a + b)[..|a + b| - 1] == a + b';
      SumOfDigitsAppend(a, b');
    } else {
      assert a + b == a;
    }
  }

  lemma {:induction false} ShowDigitSum(n: nat)
    ensures SumOfDigits(Show(n)) == ChunkDigitSum(n)
  {
    if n >= 10 {
      ShowDigitSum(n / 10);
      assert Show(n)[..|Show(n)| - 1] == Show(n / 10);
    } else if n > 0 {
      assert Show(n)[..0] == [];
    }
  }

  lemma {:induction false} PaddedDigitSum(n: nat, w: nat)
    requires n < Pow(10, w)
    ensures SumOfDigits(Padded(n, w)) == ChunkDigitSum(n)
  {
    if w > 0 {
      PaddedDigitSum(n / 10, w - 1);
      assert Padded(n, w)[..w - 1] == Padded(n / 10, w - 1);
    }
  }

  /** The digits `tostr()` prints add up to the digit sums of the chunks:
      the padding zeros add nothing. */
  lemma {:induction false} ToStrDigitSum(c: seq<nat>)
    requires |c| >= 1 && Chunks(c)
    ensures SumOfDigits(ToStr(c)) == ChunksDigitSum(c)
  {
    BaseIsPow();
    if |c| == 1 {
      ShowDigitSum(c[0]);
      assert c[1..] == [];
    } else {
      ToStrDigitSum(c[1..]);
      PaddedDigitSum(c[0], 9);
      SumOfDigitsAppend(ToStr(c[1..]), Padded(c[0], 9));
    }
  }

  lemma ModAdd(a: nat, d: nat, m: nat)
    requires m > 0
    ensures (a % m + d) % m == (a + d) % m
  {
    DivModUnique(a + d, m, a / m + (a % m + d) / m, (a % m + d) % m);
  }

  /** `digit_sum()`: the digit sums of all chunks, added in a `uint32_t`
      that wraps; it is the digit sum of what `tostr()` prints. */
  method DigitSum(c: seq<nat>) returns (sum: nat)
    ensures sum == ChunksDigitSum(c) % U32
    ensures |c| >= 1 && Chunks(c) ==> sum == SumOfDigits(ToStr(c)) % U32
  {
    sum := 0;
    ghost var total: nat := 0;
    var i := 0;
    while i < |c|
      invariant i <= |c| && sum == total % U32
      invariant total + ChunksDigitSum(c[i..]) == ChunksDigitSum(c)
    {
      assert c[i..][1..] == c[i + 1..];
      var num := c[i];
      while num != 0
        invariant sum == total % U32
        invariant total + ChunkDigitSum(num) + ChunksDigitSum(c[i + 1..]) == ChunksDigitSum(c)
      {
        ModAdd(total, num % 10, U32);
        sum := (sum + num % 10) % U32;
        total := total + num % 10;
        num := num / 10;
      }
      i := i + 1;
    }
    assert c[|c|..] == [];
    if |c| >= 1 && Chunks(c) {
      ToStrDigitSum(c);
    }
  }
}
