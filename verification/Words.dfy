/** Machine words, and the bit operations the codec performs on them.

    A word is a bounded integer.  `&`, `|` and the shifts are defined bit by bit, so the lemmas
    below -- a mask is a remainder, a disjoint `|` is a sum -- are proved rather than assumed. */
module Words {
  const TWO_64: int := 0x1_0000_0000_0000_0000

  type u8 = x: int | 0 <= x < 0x100
  type u16 = x: int | 0 <= x < 0x1_0000
  type u32 = x: int | 0 <= x < 0x1_0000_0000
  type u64 = x: int | 0 <= x < TWO_64

  datatype Option<+T> = None | Some(value: T)

  lemma Assoc<T>(a: seq<T>, b: seq<T>, c: seq<T>)
    ensures a + (b + c) == (a + b) + c
  {
  }

  function Pow2(n: nat): (p: nat)
    ensures p > 0
  {
    if n == 0 then 1 else 2 * Pow2(n - 1)
  }

  function BitAnd(a: nat, b: nat): nat
    decreases a + b
  {
    if a == 0 || b == 0 then 0
    else (if a % 2 == 1 && b % 2 == 1 then 1 else 0) + 2 * BitAnd(a / 2, b / 2)
  }

  function BitOr(a: nat, b: nat): nat
    decreases a + b
  {
    if a == 0 && b == 0 then 0
    else (if a % 2 == 1 || b % 2 == 1 then 1 else 0) + 2 * BitOr(a / 2, b / 2)
  }

  /** `a << s` without a width, as Python computes it. */
  function Shl(a: nat, s: nat): nat {
    a * Pow2(s)
  }

  /** `a << s` on a 64-bit word: bits shifted past the top are dropped. */
  function Shl64(a: u64, s: nat): u64
    requires s < 64
  {
    Shl(a, s) % TWO_64
  }

  function Shr(a: nat, s: nat): nat {
    if s == 0 then a else Shr(a / 2, s - 1)
  }

  lemma DoubleProduct(p: nat, q: nat)
    ensures 2 * (p * q) == (2 * p) * q
  {
  }

  lemma {:induction false} Pow2Add(m: nat, n: nat)
    ensures Pow2(m + n) == Pow2(m) * Pow2(n)
  {
    if m > 0 {
      Pow2Add(m - 1, n);
      DoubleProduct(Pow2(m - 1), Pow2(n));
    }
  }

  lemma {:induction false} Pow2Monotone(m: nat, n: nat)
    requires m <= n
    ensures Pow2(m) <= Pow2(n)
  {
    if m < n { Pow2Monotone(m, n - 1); }
  }

  lemma Pow2Literals()
    ensures Pow2(7) == 0x80 && Pow2(8) == 0x100 && Pow2(28) == 0x1000_0000
    ensures Pow2(32) == 0x1_0000_0000 && Pow2(35) == 0x8_0000_0000
    ensures Pow2(63) == 0x8000_0000_0000_0000 && Pow2(64) == TWO_64
  {
    assert Pow2(7) == 0x80;
    Pow2Add(7, 7);
    Pow2Add(14, 14);
    assert Pow2(32) == 0x10 * Pow2(28);
    assert Pow2(35) == 8 * Pow2(32);
    Pow2Add(28, 35);
    assert Pow2(64) == 2 * Pow2(63);
  }

  lemma {:induction false} OrWithZero(a: nat)
    ensures BitOr(0, a) == a && BitOr(a, 0) == a
  {
    if a > 0 { OrWithZero(a / 2); }
  }

  lemma {:induction false} MulMonotone(x: nat, y: nat, d: nat)
    requires x <= y
    ensures x * d <= y * d
  {
    if x < y {
      MulMonotone(x, y - 1, d);
      assert y * d == (y - 1) * d + d;
    }
  }

  /** Quotient and remainder are unique. */
  lemma RemainderOf(a: nat, q: nat, d: nat, r: nat)
    requires r < d && a == q * d + r
    ensures a / d == q && a % d == r
  {
    var q' := a / d;
    assert q' * d <= a < q' * d + d;
    assert (q + 1) * d == q * d + d && (q' + 1) * d == q' * d + d;
    if q' > q {
      MulMonotone(q + 1, q', d);
    } else if q' < q {
      MulMonotone(q' + 1, q, d);
    }
  }

  lemma HalveMask(a: nat, d: nat)
    requires a > 0 && d > 0
    ensures a % (2 * d) == a % 2 + 2 * (a / 2 % d)
    ensures BitAnd(a, 2 * d - 1) == a % 2 + 2 * BitAnd(a / 2, d - 1)
  {
    assert (2 * d - 1) / 2 == d - 1;
    var q, r := a / 2 / d, a / 2 % d;
    assert a / 2 == q * d + r;
    assert q * (2 * d) == 2 * (q * d);
    RemainderOf(a, q, 2 * d, a % 2 + 2 * r);
  }

  /** Masking with `2^k - 1` keeps the remainder. */
  lemma {:induction false} MaskIsRemainder(a: nat, k: nat)
    ensures BitAnd(a, Pow2(k) - 1) == a % Pow2(k)
  {
    if a == 0 {
      RemainderOf(0, 0, Pow2(k), 0);
    } else if k == 0 {
      RemainderOf(a, a, 1, 0);
    } else {
      var d := Pow2(k - 1);
      calc {
        BitAnd(a, Pow2(k) - 1);
        { HalveMask(a, d); }
        a % 2 + 2 * BitAnd(a / 2, d - 1);
        { MaskIsRemainder(a / 2, k - 1); }
        a % 2 + 2 * (a / 2 % d);
        { HalveMask(a, d); }
        a % (2 * d);
      }
    }
  }

  lemma DivideTwice(a: nat, d: nat)
    requires d > 0
    ensures a / 2 / d == a / (2 * d)
  {
    var q, r := a / 2 / d, a / 2 % d;
    assert a == q * (2 * d) + (2 * r + a % 2) by {
      assert a / 2 == q * d + r;
      assert q * (2 * d) == 2 * (q * d);
    }
    RemainderOf(a, q, 2 * d, 2 * r + a % 2);
  }

  lemma {:induction false} ShrDivides(a: nat, s: nat)
    ensures Shr(a, s) == a / Pow2(s)
  {
    if s > 0 {
      ShrDivides(a / 2, s - 1);
      DivideTwice(a, Pow2(s - 1));
    } else {
      RemainderOf(a, a, 1, 0);
    }
  }

  /** Testing a single bit. */
  lemma {:induction false} AndBit(a: nat, k: nat)
    ensures BitAnd(a, Pow2(k)) == a / Pow2(k) % 2 * Pow2(k)
  {
    if a > 0 {
      if k == 0 {
        assert BitAnd(a / 2, 0) == 0;
      } else {
        AndBit(a / 2, k - 1);
        DivideTwice(a, Pow2(k - 1));
        var bit := a / Pow2(k) % 2;
        assert 2 * (bit * Pow2(k - 1)) == bit * Pow2(k);
      }
    }
  }

  lemma OrDouble(low: nat, s: nat)
    ensures BitOr(low, 2 * s) == low % 2 + 2 * BitOr(low / 2, s)
  {
    if low == 0 && s == 0 {
      assert BitOr(0, 0) == 0;
    } else {
      assert 2 * s / 2 == s;
    }
  }

  function Bit(a: nat, k: nat): nat {
    a / Pow2(k) % 2
  }

  lemma BitLater(a: nat, k: nat)
    requires k > 0
    ensures Bit(a, k) == Bit(a / 2, k - 1)
  {
    DivideTwice(a, Pow2(k - 1));
  }

  lemma LowestBits(a: nat, b: nat)
    ensures BitAnd(a, b) / 2 == BitAnd(a / 2, b / 2) && BitOr(a, b) / 2 == BitOr(a / 2, b / 2)
    ensures BitAnd(a, b) % 2 == if a % 2 == 1 && b % 2 == 1 then 1 else 0
    ensures BitOr(a, b) % 2 == if a % 2 == 1 || b % 2 == 1 then 1 else 0
  {
  }

  /** Each bit of `a & b` and `a | b` is that of the operands' bits. */
  lemma {:induction false} Bitwise(a: nat, b: nat, k: nat)
    ensures Bit(BitAnd(a, b), k) == if Bit(a, k) == 1 && Bit(b, k) == 1 then 1 else 0
    ensures Bit(BitOr(a, b), k) == if Bit(a, k) == 1 || Bit(b, k) == 1 then 1 else 0
  {
    if k == 0 {
      LowestBits(a, b);
    } else {
      hide Bit, Pow2, BitAnd, BitOr;
      Bitwise(a / 2, b / 2, k - 1);
      BitLater(a, k);
      BitLater(b, k);
      BitLater(BitAnd(a, b), k);
      BitLater(BitOr(a, b), k);
      LowestBits(a, b);
    }
  }

  /** OR of a low part and a shifted high part is their sum. */
  lemma {:induction false} OrIsSum(low: nat, high: nat, k: nat)
    requires low < Pow2(k)
    ensures BitOr(low, Shl(high, k)) == low + Shl(high, k)
  {
    hide BitOr;
    if k == 0 {
      OrWithZero(high);
    } else {
      var p := Pow2(k - 1);
      OrIsSum(low / 2, high, k - 1);
      assert Shl(high, k) == 2 * (high * p);
      OrDouble(low, high * p);
    }
  }

  lemma ShiftDropsTop(low: nat, high: nat, m: nat, w: nat)
    requires m > 0 && low < w && m * w == TWO_64
    ensures high * w % TWO_64 == high % m * w
    ensures (low + high * w) % TWO_64 == low + high % m * w
  {
    var q, kept := high / m, high % m;
    assert high * w == q * TWO_64 + kept * w by {
      assert high == q * m + kept;
      assert (q * m + kept) * w == (q * m) * w + kept * w;
      assert (q * m) * w == q * (m * w);
    }
    assert kept * w + w <= TWO_64 by {
      assert (kept + 1) * w == kept * w + w;
      MulMonotone(kept + 1, m, w);
    }
    RemainderOf(high * w, q, TWO_64, kept * w);
    RemainderOf(low + high * w, q, TWO_64, low + kept * w);
  }

  /** On 64-bit words the same sum is taken mod 2^64: the bits that fall off the top are lost. */
  lemma OrIsSum64(low: u64, high: u64, k: nat)
    requires k < 64 && low < Pow2(k)
    ensures BitOr(low, Shl64(high, k)) == (low + high * Pow2(k)) % TWO_64
  {
    assert Pow2(64 - k) * Pow2(k) == TWO_64 by {
      Pow2Literals();
      Pow2Add(64 - k, k);
    }
    var kept := high % Pow2(64 - k);
    ShiftDropsTop(low, high, Pow2(64 - k), Pow2(k));
    OrIsSum(low, kept, k);
  }
}
