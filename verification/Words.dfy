/** Machine words as mathematical integers: every truncation, sign extension and wrap-around the C types
    perform is written out. A word whose bits are addressed one by one (EFLAGS, a bitmap word) is a `Bits32`. */
module Words {
  const TWO8 := 0x100
  const TWO16 := 0x1_0000
  const TWO32 := 0x1_0000_0000
  const TWO64 := 0x1_0000_0000_0000_0000

  type u8 = x: int | 0 <= x < TWO8
  type u16 = x: int | 0 <= x < TWO16
  type u32 = x: int | 0 <= x < TWO32
  type u64 = x: int | 0 <= x < TWO64

  function Wrap8(x: int): u8 { x % TWO8 }
  function Wrap16(x: int): u16 { x % TWO16 }
  function Wrap32(x: int): u32 { x % TWO32 }
  function Wrap64(x: int): u64 { x % TWO64 }

  lemma WrapSmall(x: int)
    requires 0 <= x < TWO32
    ensures Wrap32(x) == x
  {
  }

  /** The two's complement reading of the low 8, 16, 32 and 64 bits of `x`. */
  function Signed8(x: int): int { if Wrap8(x) < 0x80 then Wrap8(x) else Wrap8(x) - TWO8 }
  function Signed16(x: int): int { if Wrap16(x) < 0x8000 then Wrap16(x) else Wrap16(x) - TWO16 }
  function Signed32(x: int): int { if Wrap32(x) < 0x8000_0000 then Wrap32(x) else Wrap32(x) - TWO32 }
  function Signed64(x: int): int
  {
    if Wrap64(x) < 0x8000_0000_0000_0000 then Wrap64(x) else Wrap64(x) - TWO64
  }

  /** A multiple of the modulus makes no difference. */
  lemma AddMultiple(x: int, k: int, m: int)
    requires m > 0
    ensures (x + k * m) % m == x % m
  {
    var q := x / m;
    assert x + k * m == (q + k) * m + x % m;
    DivModUnique(x + k * m, q + k, x % m, m);
  }

  lemma DivModUnique(x: int, q: int, r: int, m: int)
    requires 0 <= r < m && x == q * m + r
    ensures x / m == q && x % m == r
  {
    var (p, e) := (x / m, x / m - q);
    SplitProduct(p, q, m);
    if e >= 1 { ProductAtLeast(e, m); } else if e <= -1 { ProductAtLeast(-e, m); }
  }

  lemma SplitProduct(p: int, q: int, m: int)
    ensures p * m == q * m + (p - q) * m
  {
  }

  lemma ProductAtLeast(e: int, m: int)
    requires e >= 1 && m >= 0
    ensures e * m >= m && -e * m <= -m
  {
    SplitProduct(e, 1, m);
    assert (e - 1) * m >= 0;
  }

  lemma WrapTwice(x: int, k: int)
    ensures Wrap32(Wrap32(x) + k) == Wrap32(x + k)
  {
    AddMultiple(Wrap32(x) + k, x / TWO32, TWO32);
  }

  /** Truncating to 32 bits first makes no difference to a narrower truncation. */
  lemma NarrowWrap(x: int)
    ensures Wrap8(Wrap32(x)) == Wrap8(x)
    ensures Wrap16(Wrap32(x)) == Wrap16(x)
    ensures Wrap8(Wrap16(x)) == Wrap8(x)
  {
    AddMultiple(Wrap32(x), x / TWO32 * 0x100_0000, TWO8);
    AddMultiple(Wrap32(x), x / TWO32 * TWO16, TWO16);
    AddMultiple(Wrap16(x), x / TWO16 * TWO8, TWO8);
  }

  /** C's `/` and `%`: truncation toward zero. */
  function TruncDiv(n: int, d: int): int
    requires d != 0
  {
    if n >= 0 then (if d > 0 then n / d else -(n / -d))
    else if d > 0 then -(-n / d) else -n / -d
  }

  function TruncMod(n: int, d: int): int
    requires d != 0
  {
    if n >= 0 then n % (if d > 0 then d else -d) else -(-n % (if d > 0 then d else -d))
  }

  /** Truncating division is the one with |r| < |d| and the remainder on the dividend's side of zero. */
  lemma TruncDivMod(n: int, d: int)
    requires d != 0
    ensures n == TruncDiv(n, d) * d + TruncMod(n, d)
    ensures -Abs(d) < TruncMod(n, d) < Abs(d)
    ensures n >= 0 ==> TruncMod(n, d) >= 0
    ensures n <= 0 ==> TruncMod(n, d) <= 0
  {
    var (m, e) := (Abs(n), Abs(d));
    assert m == (m / e) * e + m % e;
    if (n >= 0) == (d > 0) {
      assert TruncDiv(n, d) == m / e;
    } else {
      assert TruncDiv(n, d) == -(m / e);
      assert -(m / e) * e == -((m / e) * e);
    }
  }

  function Abs(x: int): (r: int)
    ensures r >= 0
  {
    if x < 0 then -x else x
  }

  type Bits32 = b: seq<bool> | |b| == 32 witness seq(32, i => false)

  ghost function Pow2(n: nat): (p: nat)
    ensures p > 0
  {
    if n == 0 then 1 else 2 * Pow2(n - 1)
  }

  /** The number a little-endian row of bits denotes. */
  function WordOf(bits: seq<bool>): (w: nat)
    ensures w < Pow2(|bits|)
  {
    if |bits| == 0 then 0 else (if bits[0] then 1 else 0) + 2 * WordOf(bits[1..])
  }

  function BitsOf(w: nat, n: nat): (bits: seq<bool>)
    ensures |bits| == n
  {
    if n == 0 then [] else [w % 2 == 1] + BitsOf(w / 2, n - 1)
  }

  lemma {:induction false} BitsRoundTrip(bits: seq<bool>)
    ensures BitsOf(WordOf(bits), |bits|) == bits
  {
    if |bits| > 0 {
      BitsRoundTrip(bits[1..]);
      assert WordOf(bits) / 2 == WordOf(bits[1..]);
    }
  }

  lemma {:induction false} WordRoundTrip(w: nat, n: nat)
    requires w < Pow2(n)
    ensures WordOf(BitsOf(w, n)) == w
  {
    if n > 0 {
      WordRoundTrip(w / 2, n - 1);
      assert BitsOf(w, n)[1..] == BitsOf(w / 2, n - 1);
    }
  }

  lemma Pow2Of32()
    ensures Pow2(32) == TWO32
  {
    assert Pow2(8) == 0x100;
    assert Pow2(16) == 0x1_0000;
    assert Pow2(24) == 0x100_0000;
  }

  function ToBits(w: u32): Bits32 { BitsOf(w, 32) }

  function ToWord(bits: Bits32): u32
  {
    Pow2Of32();
    WordOf(bits)
  }

  /** Bitwise AND, OR and XOR of two 32-bit words. */
  function And32(x: u32, y: u32): u32
  {
    ToWord(seq(32, i requires 0 <= i < 32 => ToBits(x)[i] && ToBits(y)[i]))
  }

  function Or32(x: u32, y: u32): u32
  {
    ToWord(seq(32, i requires 0 <= i < 32 => ToBits(x)[i] || ToBits(y)[i]))
  }

  function Xor32(x: u32, y: u32): u32
  {
    ToWord(seq(32, i requires 0 <= i < 32 => ToBits(x)[i] != ToBits(y)[i]))
  }

  /** Bit `k` of a number. */
  ghost predicate BitOf(v: int, k: nat) { v / Pow2(k) % 2 == 1 }

  lemma {:induction false} BitsAre(w: nat, n: nat, k: nat)
    requires k < n
    ensures BitsOf(w, n)[k] <==> BitOf(w, k)
    decreases n
  {
    if k > 0 {
      BitsAre(w / 2, n - 1, k - 1);
      assert BitsOf(w, n)[k] == BitsOf(w / 2, n - 1)[k - 1];
      HalfThenDivide(w, Pow2(k - 1));
    }
  }

  lemma HalfThenDivide(w: nat, p: nat)
    requires p > 0
    ensures w / 2 / p == w / (2 * p)
  {
    var (q, r) := (w / 2 / p, w / 2 % p);
    assert w / 2 == q * p + r;
    assert 2 * (q * p) == q * (2 * p);
    DivModUnique(w, q, 2 * r + w % 2, 2 * p);
  }

  /** The low `n` bits of a number are those of its remainder. */
  lemma {:induction false} BitsBelow(x: nat, n: nat, k: nat)
    requires k < n
    ensures BitOf(x % Pow2(n), k) <==> BitOf(x, k)
    decreases n
  {
    var (p, y) := (Pow2(n - 1), x % Pow2(n));
    Halves(x, p);
    if k > 0 {
      BitsBelow(x / 2, n - 1, k - 1);
      HalfThenDivide(x, Pow2(k - 1));
      HalfThenDivide(y, Pow2(k - 1));
    }
  }

  lemma Halves(x: nat, p: nat)
    requires p > 0
    ensures x % (2 * p) / 2 == x / 2 % p && x % (2 * p) % 2 == x % 2
  {
    var (q, r) := (x / 2 / p, x / 2 % p);
    assert x / 2 == q * p + r && x == 2 * (x / 2) + x % 2;
    assert 2 * (q * p) == q * (2 * p);
    DivModUnique(x, q, 2 * r + x % 2, 2 * p);
  }

  /** In the complement every bit is turned over. */
  lemma {:induction false} ComplementBits(x: nat, n: nat, k: nat)
    requires k < n && x < Pow2(n)
    ensures BitOf(Pow2(n) - 1 - x, k) <==> !BitOf(x, k)
    decreases n
  {
    var y := Pow2(n) - 1 - x;
    ComplementHalves(x, Pow2(n - 1));
    if k > 0 {
      hide BitOf;
      ComplementBits(x / 2, n - 1, k - 1);
      HalfBit(x, k);
      HalfBit(y, k);
    }
  }

  lemma ComplementHalves(x: nat, p: nat)
    requires x < 2 * p
    ensures x / 2 < p && (2 * p - 1 - x) / 2 == p - 1 - x / 2 && (2 * p - 1 - x) % 2 == 1 - x % 2
  {
  }

  lemma HalfBit(x: nat, k: nat)
    requires k > 0
    ensures BitOf(x, k) <==> BitOf(x / 2, k - 1)
  {
    HalfThenDivide(x, Pow2(k - 1));
  }

  lemma WordBits(bits: seq<bool>, k: nat)
    requires k < |bits|
    ensures bits[k] <==> BitOf(WordOf(bits), k)
  {
    BitsRoundTrip(bits);
    BitsAre(WordOf(bits), |bits|, k);
  }

  /** AND, OR and XOR work bit by bit. */
  lemma Bitwise(x: u32, y: u32, k: nat)
    requires k < 32
    ensures BitOf(And32(x, y), k) <==> BitOf(x, k) && BitOf(y, k)
    ensures BitOf(Or32(x, y), k) <==> BitOf(x, k) || BitOf(y, k)
    ensures BitOf(Xor32(x, y), k) <==> BitOf(x, k) != BitOf(y, k)
  {
    hide BitOf, WordOf, BitsOf;
    BitsAre(x, 32, k);
    BitsAre(y, 32, k);
    WordBits(seq(32, i requires 0 <= i < 32 => ToBits(x)[i] && ToBits(y)[i]), k);
    WordBits(seq(32, i requires 0 <= i < 32 => ToBits(x)[i] || ToBits(y)[i]), k);
    WordBits(seq(32, i requires 0 <= i < 32 => ToBits(x)[i] != ToBits(y)[i]), k);
  }

  lemma {:induction false} BitSums(a: seq<bool>, b: seq<bool>, both: seq<bool>, either: seq<bool>)
    requires |a| == |b| == |both| == |either|
    requires forall i :: 0 <= i < |a| ==> (both[i] <==> a[i] && b[i]) && (either[i] <==> a[i] || b[i])
    ensures WordOf(both) + WordOf(either) == WordOf(a) + WordOf(b)
  {
    if |a| > 0 { BitSums(a[1..], b[1..], both[1..], either[1..]); }
  }

  /** What two words have in common and what they have between them make up their sum. */
  lemma AndPlusOr(x: u32, y: u32)
    ensures And32(x, y) + Or32(x, y) == x + y
  {
    Pow2Of32();
    WordRoundTrip(x, 32);
    WordRoundTrip(y, 32);
    BitSums(ToBits(x), ToBits(y), seq(32, i requires 0 <= i < 32 => ToBits(x)[i] && ToBits(y)[i]),
            seq(32, i requires 0 <= i < 32 => ToBits(x)[i] || ToBits(y)[i]));
  }

  lemma {:induction false} ZeroWord(n: nat)
    ensures WordOf(seq(n, i => false)) == 0
  {
    if n > 0 {
      ZeroWord(n - 1);
      assert seq(n, i => false)[1..] == seq(n - 1, i => false);
    }
  }

  /** XOR of a word with itself clears it, which is how compilers and `bricks.asm` zero a register. */
  lemma XorSelf(x: u32)
    ensures Xor32(x, x) == 0
  {
    ZeroWord(32);
    assert seq(32, i requires 0 <= i < 32 => ToBits(x)[i] != ToBits(x)[i]) == seq(32, i => false);
  }

  /** `v & weight`, for a power of two `weight`. */
  predicate TestBit(v: int, weight: int)
    requires weight > 0
  {
    v % (2 * weight) >= weight
  }

  function Ones(bits: seq<bool>): nat
  {
    if |bits| == 0 then 0 else (if bits[0] then 1 else 0) + Ones(bits[1..])
  }

  /** The parity table: true where the low byte has an odd number of ones. */
  predicate OddParity(v: int) { Ones(BitsOf(Wrap8(v), 8)) % 2 == 1 }
}
