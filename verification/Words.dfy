/** Machine words, shifts and the few arithmetic facts the other modules share. */
module Words {
  const U32 := 0x1_0000_0000
  const U31 := 0x8000_0000

  type Byte = x: int | 0 <= x < 256
  type Bit = x: int | 0 <= x < 2
  type Word = x: int | 0 <= x < 0x1_0000_0000

  datatype Option<+T> = None | Some(value: T)

  function Min(a: int, b: int): int {
    if a < b then a else b
  }

  function Max(a: int, b: int): int {
    if a < b then b else a
  }

  function Pow2(n: nat): (p: nat)
    ensures p > 0
  {
    if n == 0 then 1 else 2 * Pow2(n - 1)
  }

  /** `x >> n` for an unsigned `x`. */
  function Shr(x: nat, n: nat): nat {
    if n == 0 then x else Shr(x, n - 1) / 2
  }

  /** `x << n` without truncation. */
  function Shl(x: nat, n: nat): nat {
    x * Pow2(n)
  }

  /** A right shift is the floor of a division by a power of two. */
  lemma {:induction false} ShrBounds(x: nat, n: nat)
    ensures Shr(x, n) * Pow2(n) <= x < (Shr(x, n) + 1) * Pow2(n)
  {
    if n > 0 {
      ShrBounds(x, n - 1);
      HalfScale(Shr(x, n - 1), Pow2(n - 1));
    }
  }

  /** Halving the multiplier of `p` against doubling `p`. */
  lemma HalfScale(q: nat, p: nat)
    ensures q / 2 * (2 * p) <= q * p
    ensures (q + 1) * p <= (q / 2 + 1) * (2 * p)
  {
    var h := q / 2;
    assert h * (2 * p) == (2 * h) * p;
    assert (h + 1) * (2 * p) == (2 * h + 2) * p;
    MulMonotone(2 * h, q, p);
    MulMonotone(q + 1, 2 * h + 2, p);
  }

  lemma {:induction false} ShrUnique(x: nat, n: nat, q: nat)
    requires q * Pow2(n) <= x < (q + 1) * Pow2(n)
    ensures Shr(x, n) == q
  {
    ShrBounds(x, n);
    var s, p := Shr(x, n), Pow2(n);
    if s < q {
      MulMonotone(s + 1, q, p);
    } else if q < s {
      MulMonotone(q + 1, s, p);
    }
  }

  lemma MulMonotone(a: nat, b: nat, p: nat)
    requires a <= b
    ensures a * p <= b * p
  {
    assert b * p == a * p + (b - a) * p;
  }

  lemma MulAssoc(a: int, b: int, c: int)
    ensures a * b * c == a * (b * c)
  {
  }

  lemma {:induction false} ShrShift(x: nat, n: nat)
    ensures Shr(x, n + 1) == Shr(x / 2, n)
  {
    if n > 0 {
      ShrShift(x, n - 1);
    }
  }

  lemma {:induction false} Pow2Monotone(a: nat, b: nat)
    requires a <= b
    ensures Pow2(a) <= Pow2(b)
    decreases b
  {
    if a < b {
      Pow2Monotone(a, b - 1);
    }
  }

  lemma {:induction false} Pow2Add(a: nat, b: nat)
    ensures Pow2(a) * Pow2(b) == Pow2(a + b)
  {
    hide Pow2;
    if a == 0 {
      Pow2Zero();
    } else {
      Pow2Add(a - 1, b);
      Pow2Double(a);
      Pow2Double(a + b);
      MulAssoc(2, Pow2(a - 1), Pow2(b));
    }
  }

  lemma Pow2Zero()
    ensures Pow2(0) == 1
  {
  }

  lemma Pow2Double(n: nat)
    requires n > 0
    ensures Pow2(n) == 2 * Pow2(n - 1)
  {
  }

  lemma Pow2Small()
    ensures Pow2(0) == 1 && Pow2(1) == 2 && Pow2(2) == 4 && Pow2(3) == 8 && Pow2(4) == 16
    ensures Pow2(5) == 32 && Pow2(6) == 64 && Pow2(7) == 128 && Pow2(8) == 256
  {
    hide Pow2;
    Pow2Zero();
    Pow2Double(1);
    Pow2Double(2);
    Pow2Double(3);
    Pow2Double(4);
    Pow2Double(5);
    Pow2Double(6);
    Pow2Double(7);
    Pow2Double(8);
  }

  lemma Pow2Values()
    ensures Pow2(0) == 1 && Pow2(1) == 2 && Pow2(2) == 4 && Pow2(3) == 8 && Pow2(4) == 16
    ensures Pow2(5) == 32 && Pow2(6) == 64 && Pow2(7) == 128 && Pow2(8) == 256
    ensures Pow2(12) == 4096 && Pow2(30) == 0x4000_0000 && Pow2(32) == U32
  {
    hide Pow2;
    Pow2Small();
    Pow2Add(8, 4);
    Pow2Add(8, 8);
    Pow2Add(8, 6);
    Pow2Add(16, 14);
    Pow2Add(16, 16);
  }

  lemma ModStep(k: nat, d: nat)
    requires 1 <= d <= k
    ensures k % d == (k - d) % d
  {
    var q, r := (k - d) / d, (k - d) % d;
    assert k == d * (q + 1) + r;
    ModUnique(k, d, q + 1, r);
  }

  lemma ModUnique(k: nat, d: nat, q: nat, r: nat)
    requires r < d && k == d * q + r
    ensures k % d == r && k / d == q
  {
    var q', r' := k / d, k % d;
    assert d * q + r == d * q' + r';
    if q < q' {
      MulMonotone(q + 1, q', d);
    } else if q' < q {
      MulMonotone(q' + 1, q, d);
    }
  }

  /** The remainder, where only its laws matter. */
  function Rem(k: nat, d: nat): (r: nat)
    requires d > 0
    ensures r < d
  {
    k % d
  }

  lemma RemStep(k: nat, d: nat)
    requires d > 0
    ensures Rem(k, d) == if k < d then k else Rem(k - d, d)
  {
    if k >= d {
      ModStep(k, d);
    } else {
      ModUnique(k, d, 0, k);
    }
  }

  lemma ModPlusMultiple(x: nat, d: nat, k: nat)
    requires d > 0
    ensures (x + d * k) % d == x % d
  {
    var q, r := x / d, x % d;
    assert d * (q + k) == d * q + d * k;
    ModUnique(x + d * k, d, q + k, r);
  }

  /** `was` with `text` written at `at`. */
  function Splice<T>(was: seq<T>, at: nat, text: seq<T>): (now: seq<T>)
    requires at + |text| <= |was|
    ensures |now| == |was|
  {
    was[..at] + text + was[at + |text|..]
  }

  /** Two writes in a row are one. */
  lemma SpliceTwice<T>(was: seq<T>, at: nat, a: seq<T>, b: seq<T>)
    requires at + |a| + |b| <= |was|
    ensures Splice(Splice(was, at, a), at + |a|, b) == Splice(was, at, a + b)
  {
  }

  lemma SpliceNothing<T>(was: seq<T>, at: nat)
    requires at <= |was|
    ensures Splice(was, at, []) == was
  {
  }
}
