/** 64-bit unsigned arithmetic as the C code does it: modulo 2^64, with bitwise masks. */
module Words {
  import opened Bytes

  const W: int := 0x1_0000_0000_0000_0000
  type word = x: int | 0 <= x < 0x1_0000_0000_0000_0000

  function Wrap(x: int): word { x % W }

  /** The sum of two words. */
  function Plus(a: word, b: word): word { if a + b < W then a + b else a + b - W }

  lemma PlusWraps(a: word, b: word)
    ensures Plus(a, b) == Wrap(a + b)
  {
  }

  /** One step outside the range wraps to the other end. */
  lemma WrapOnce(x: int)
    requires -W <= x < 2 * W
    ensures Wrap(x) == if x < 0 then x + W else if x < W then x else x - W
  {
  }

  // ---------- bitwise operators ----------

  function And(x: nat, y: nat): (r: nat)
    ensures r <= x
  {
    if x == 0 || y == 0 then 0
    else (if x % 2 == 1 && y % 2 == 1 then 1 else 0) + 2 * And(x / 2, y / 2)
  }

  function Not(x: word): word { W - 1 - x }

  /** x | y, by the identity x + y == (x | y) + (x & y). */
  function Or(x: nat, y: nat): nat { x + y - And(x, y) }

  function Pow2(k: nat): (r: nat)
    ensures r > 0
  {
    if k == 0 then 1 else 2 * Pow2(k - 1)
  }

  /** The low k bits of x, and what is above them. */
  function LowBits(x: nat, k: nat): nat {
    if k == 0 then 0 else x % 2 + 2 * LowBits(x / 2, k - 1)
  }

  function HighBits(x: nat, k: nat): nat {
    if k == 0 then x else HighBits(x / 2, k - 1)
  }

  /** q times a, by repeated addition. */
  function Times(q: nat, a: nat): nat {
    if q == 0 then 0 else Times(q - 1, a) + a
  }

  lemma {:induction false} TimesDouble(q: nat, a: nat)
    ensures Times(q, 2 * a) == 2 * Times(q, a)
  {
    if q > 0 { TimesDouble(q - 1, a); }
  }

  lemma {:induction false} TimesLess(p: nat, q: nat, a: nat)
    requires p < q
    ensures Times(q, a) >= Times(p, a) + a
  {
    if p < q - 1 { TimesLess(p, q - 1, a); }
  }

  lemma {:induction false} TimesMod(q: nat)
    ensures Times(q, 8) % 8 == 0 && Times(q, 16) % 16 == 0 && Times(q, 256) % 256 == 0 && Times(q, 4096) % 4096 == 0
  {
    if q > 0 { TimesMod(q - 1); }
  }

  lemma {:induction false} SplitBits(x: nat, k: nat)
    ensures x == Times(HighBits(x, k), Pow2(k)) + LowBits(x, k) && LowBits(x, k) < Pow2(k)
  {
    if k == 0 {
      TimesOne(x);
    } else {
      SplitBits(x / 2, k - 1);
      TimesDouble(HighBits(x, k), Pow2(k - 1));
    }
  }

  lemma {:induction false} TimesOne(q: nat)
    ensures Times(q, 1) == q
  {
    if q > 0 { TimesOne(q - 1); }
  }

  lemma {:induction false} Pow2Monotone(k: nat, n: nat)
    requires k <= n
    ensures Pow2(k) <= Pow2(n)
  {
    if k < n { Pow2Monotone(k, n - 1); }
  }

  lemma {:induction false} AndOnes(x: nat, n: nat)
    requires x < Pow2(n)
    ensures And(x, Pow2(n) - 1) == x
  {
    if x != 0 {
      var m := Pow2(n) - 1;
      assert m % 2 == 1 && m / 2 == Pow2(n - 1) - 1;
      AndOnes(x / 2, n - 1);
    }
  }

  lemma AndEven(x: nat, h: nat)
    ensures And(x, 2 * h) == 2 * And(x / 2, h)
  {
    assert (2 * h) % 2 == 0 && (2 * h) / 2 == h;
  }

  lemma MaskStep(x: nat, h: nat, low: nat)
    requires And(x / 2, h) == x / 2 - low
    ensures And(x, 2 * h) == x - (x % 2 + 2 * low)
  {
    AndEven(x, h);
  }

  /** Masking with n-bit ~(2^k - 1) clears the low k bits. */
  lemma {:induction false} AndMask(x: nat, k: nat, n: nat)
    requires k <= n && x < Pow2(n)
    ensures Pow2(k) <= Pow2(n) && And(x, Pow2(n) - Pow2(k)) == x - LowBits(x, k)
    decreases n
  {
    Pow2Monotone(k, n);
    if k == 0 {
      AndOnes(x, n);
    } else {
      Pow2Monotone(k - 1, n - 1);
      AndMask(x / 2, k - 1, n - 1);
      var h := Pow2(n - 1) - Pow2(k - 1);
      assert Pow2(n) - Pow2(k) == 2 * h;
      MaskStep(x, h, LowBits(x / 2, k - 1));
    }
  }

  lemma Pow2Values()
    ensures Pow2(3) == 8 && Pow2(4) == 16 && Pow2(8) == 256 && Pow2(12) == 4096 && Pow2(64) == W
  {
    assert Pow2(4) == 16;
    assert Pow2(8) == 16 * Pow2(4);
    assert Pow2(12) == 16 * Pow2(8);
    assert Pow2(16) == 16 * Pow2(12);
    assert Pow2(20) == 16 * Pow2(16);
    assert Pow2(24) == 16 * Pow2(20);
    assert Pow2(28) == 16 * Pow2(24);
    assert Pow2(32) == 16 * Pow2(28);
    assert Pow2(36) == 16 * Pow2(32);
    assert Pow2(40) == 16 * Pow2(36);
    assert Pow2(44) == 16 * Pow2(40);
    assert Pow2(48) == 16 * Pow2(44);
    assert Pow2(52) == 16 * Pow2(48);
    assert Pow2(56) == 16 * Pow2(52);
    assert Pow2(60) == 16 * Pow2(56);
    assert Pow2(64) == 16 * Pow2(60);
  }

  // ---------- rounding up ----------

  /** `round_up`: (v + a - 1) & ~(a - 1). */
  function RoundUp(v: word, a: word): word
    requires a > 0
  {
    And(Wrap(v + a - 1), Not(a - 1))
  }

  lemma MaskWord(t: word, k: nat)
    requires k < 64
    ensures Pow2(k) < W && And(t, Not(Pow2(k) - 1)) == t - LowBits(t, k)
  {
    Pow2Values();
    Pow2Monotone(k, 63);
    AndMask(t, k, 64);
  }

  lemma LeastMultiple(v: nat, a: nat, q: nat, low: nat)
    requires low < a && v + a - 1 == Times(q, a) + low
    ensures forall p: nat :: Times(p, a) >= v ==> Times(p, a) >= Times(q, a)
  {
    forall p: nat | Times(p, a) >= v ensures Times(p, a) >= Times(q, a) {
      if p < q { TimesLess(p, q, a); } else if q < p { TimesLess(q, p, a); }
    }
  }

  /** The low part of v + a - 1 cleared: the multiple of a that round_up returns. */
  lemma RoundUpBits(v: word, k: nat)
    requires k < 64 && v + Pow2(k) - 1 < W
    ensures Pow2(k) < W && RoundUp(v, Pow2(k)) == Times(HighBits(v + Pow2(k) - 1, k), Pow2(k))
  {
    var t := v + Pow2(k) - 1;
    WrapOnce(t);
    MaskWord(t, k);
    SplitBits(t, k);
  }

  /** For a power of two, and absent overflow, `round_up` is the least multiple that is not below v. */
  lemma RoundUpLeast(v: word, k: nat)
    requires k < 64 && v + Pow2(k) - 1 < W
    ensures Pow2(k) < W
    ensures var a, r := Pow2(k), RoundUp(v, Pow2(k));
            && v <= r < v + a
            && (exists q: nat :: r == Times(q, a))
            && forall p: nat :: Times(p, a) >= v ==> Times(p, a) >= r
  {
    var a, t := Pow2(k), v + Pow2(k) - 1;
    RoundUpBits(v, k);
    SplitBits(t, k);
    LeastMultiple(v, a, HighBits(t, k), LowBits(t, k));
  }

  /** The masks the injector uses, in closed form. */
  lemma MaskValues(t: word)
    ensures And(t, Not(7)) == t - t % 8
    ensures And(t, Not(15)) == t - t % 16
    ensures And(t, Not(255)) == t - t % 256
    ensures And(t, Not(4095)) == t - t % 4096
  {
    Pow2Values();
    MaskLow(t, 3);
    MaskLow(t, 4);
    MaskLow(t, 8);
    MaskLow(t, 12);
  }

  lemma ModAdd(t: nat, low: nat)
    ensures t % 8 == 0 && low < 8 ==> (t + low) % 8 == low
    ensures t % 16 == 0 && low < 16 ==> (t + low) % 16 == low
    ensures t % 256 == 0 && low < 256 ==> (t + low) % 256 == low
    ensures t % 4096 == 0 && low < 4096 ==> (t + low) % 4096 == low
  {
    assert t % 8 == 0 && low < 8 ==> (t + low) / 8 == t / 8;
    assert t % 16 == 0 && low < 16 ==> (t + low) / 16 == t / 16;
    assert t % 256 == 0 && low < 256 ==> (t + low) / 256 == t / 256;
    assert t % 4096 == 0 && low < 4096 ==> (t + low) / 4096 == t / 4096;
  }

  lemma MaskLow(t: word, k: nat)
    requires k < 64
    ensures Pow2(k) < W && And(t, Not(Pow2(k) - 1)) == t - LowBits(t, k)
    ensures k == 3 ==> LowBits(t, k) == t % 8
    ensures k == 4 ==> LowBits(t, k) == t % 16
    ensures k == 8 ==> LowBits(t, k) == t % 256
    ensures k == 12 ==> LowBits(t, k) == t % 4096
  {
    assert Pow2(k) < W && And(t, Not(Pow2(k) - 1)) == t - LowBits(t, k) by { MaskWord(t, k); }
    var low, high := LowBits(t, k), Times(HighBits(t, k), Pow2(k));
    assert t == high + low && low < Pow2(k) by { SplitBits(t, k); }
    Pow2Values();
    TimesMod(HighBits(t, k));
    ModAdd(high, low);
  }

  // ---------- little-endian words ----------

  function ToLe(v: nat, n: nat): (r: seq<byte>)
    ensures |r| == n
  {
    if n == 0 then [] else [v % 256] + ToLe(v / 256, n - 1)
  }

  function FromLe(s: seq<byte>): nat {
    if s == [] then 0 else s[0] as int + 256 * FromLe(s[1..])
  }

  lemma {:induction false} LeRoundTrip(s: seq<byte>)
    ensures ToLe(FromLe(s), |s|) == s
  {
    if s != [] {
      LeRoundTrip(s[1..]);
      var r := FromLe(s[1..]);
      assert FromLe(s) / 256 == r && FromLe(s) % 256 == s[0] as int;
    }
  }

  lemma {:induction false} LeValue(v: nat, k: nat)
    requires v < Pow2(8 * k)
    ensures FromLe(ToLe(v, k)) == v
  {
    if k > 0 {
      Pow2Step(k);
      LeValue(v / 256, k - 1);
      assert ToLe(v, k)[1..] == ToLe(v / 256, k - 1);
    }
  }

  lemma Pow2Four(j: nat)
    requires j >= 4
    ensures Pow2(j) == 16 * Pow2(j - 4)
  {
    assert Pow2(j) == 2 * Pow2(j - 1);
    assert Pow2(j - 1) == 2 * Pow2(j - 2);
    assert Pow2(j - 2) == 2 * Pow2(j - 3);
  }

  lemma Pow2Eight(j: nat)
    requires j >= 8
    ensures Pow2(j) == 256 * Pow2(j - 8)
  {
    Pow2Four(j);
    Pow2Four(j - 4);
  }

  lemma Pow2Step(k: nat)
    requires k > 0
    ensures Pow2(8 * k) == 256 * Pow2(8 * (k - 1))
  {
    Pow2Eight(8 * k);
  }

  lemma {:induction false} LeBound(s: seq<byte>)
    ensures FromLe(s) < Pow2(8 * |s|)
  {
    if s != [] {
      LeBound(s[1..]);
      Pow2Step(|s|);
    }
  }
}
