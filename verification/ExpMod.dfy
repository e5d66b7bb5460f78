/** Multi-precision integers in base 2^28, least significant digit first. */
module Bignum {
  import opened Arith

  const DIGIT_BIT: nat := 28

  datatype BigNum = BigNum(dp: seq<nat>) {
    ghost predicate Valid() {
      && Digits(dp, DIGIT_BIT)
      && (dp != [] ==> dp[|dp| - 1] > 0)
    }

    function Value(): nat {
      ValueOf(dp, DIGIT_BIT)
    }
  }

  ghost predicate Digits(dp: seq<nat>, w: nat) {
    forall i | 0 <= i < |dp| :: dp[i] < Pow2(w)
  }

  /** The number spelled by digits of w bits each. */
  function ValueOf(dp: seq<nat>, w: nat): nat {
    if dp == [] then 0 else dp[0] + Pow2(w) * ValueOf(dp[1..], w)
  }

  /** Digits have 28 bits, the lowest digit first. */
  lemma {:induction false} DigitsCount(dp: seq<nat>, d: nat)
    ensures BigNum([]).Value() == 0
    ensures BigNum([d] + dp).Value() == d + 0x1000_0000 * BigNum(dp).Value()
  {
    TwentyEight();
    assert ([d] + dp)[1..] == dp;
  }

  lemma TwentyEight()
    ensures Pow2(DIGIT_BIT) == 0x1000_0000
  {
    PowAdd(2, 7, 7);
    PowAdd(2, 14, 14);
    assert Pow(2, 7) == 2 * Pow(2, 6) == 4 * Pow(2, 5) == 8 * Pow(2, 4) == 16 * Pow(2, 3) == 32 * Pow(2, 2);
  }

  function BitLength(q: nat): nat {
    if q == 0 then 0 else 1 + BitLength(q / 2)
  }

  function BitsOf(dp: seq<nat>, w: nat): nat {
    if dp == [] then 0 else (|dp| - 1) * w + BitLength(dp[|dp| - 1])
  }

  function CountBits(a: BigNum): nat {
    BitsOf(a.dp, DIGIT_BIT)
  }

  /** The first bit index past those a 16-bit int holds. */
  const INDEX_LIMIT: nat := 0x8000

  function GetBit(a: BigNum, idx: nat): nat
    requires idx < INDEX_LIMIT
    requires a.dp != [] ==> idx / DIGIT_BIT < |a.dp|
  {
    if |a.dp| <= 0 then 0
    else (a.dp[idx / DIGIT_BIT] / Pow2(idx % DIGIT_BIT)) % 2
  }

  lemma {:induction false} BitLengthBounds(q: nat)
    ensures q < Pow2(BitLength(q))
    ensures q > 0 ==> Pow2(BitLength(q) - 1) <= q
  {
    if q > 0 {
      BitLengthBounds(q / 2);
    }
  }

  lemma BitLengthAtMost(q: nat, w: nat)
    requires q < Pow2(w)
    ensures BitLength(q) <= w
  {
    if BitLength(q) > w {
      BitLengthBounds(q);
      Pow2Monotone(w, BitLength(q) - 1);
    }
  }

  /** A top digit between lo and hi powers of two bounds the whole number likewise. */
  lemma {:induction false} TopDigitBounds(dp: seq<nat>, w: nat, b: nat)
    requires Digits(dp, w) && dp != []
    requires b > 0 && Pow2(b - 1) <= dp[|dp| - 1] < Pow2(b)
    ensures Pow2((|dp| - 1) * w + b - 1) <= ValueOf(dp, w) < Pow2((|dp| - 1) * w + b)
    decreases |dp|
  {
    var rest := ValueOf(dp[1..], w);
    if |dp| == 1 {
      assert rest == 0 && (|dp| - 1) * w == 0;
    } else {
      TopDigitBounds(dp[1..], w, b);
      var k := (|dp| - 2) * w + b;
      assert (|dp| - 1) * w + b == w + k;
      PowAdd(2, w, k);
      PowAdd(2, w, k - 1);
      ScaledRemainder(Pow2(w), Pow2(k), rest, dp[0]);
      MulMonotone(Pow2(w), Pow2(k - 1), rest);
    }
  }

  lemma BitsOfBounds(dp: seq<nat>, w: nat)
    requires Digits(dp, w) && dp != [] && dp[|dp| - 1] > 0
    ensures BitsOf(dp, w) > 0
    ensures Pow2(BitsOf(dp, w) - 1) <= ValueOf(dp, w) < Pow2(BitsOf(dp, w))
  {
    var top := dp[|dp| - 1];
    BitLengthBounds(top);
    TopDigitBounds(dp, w, BitLength(top));
  }

  /** The count is exact: the value lies between the two neighbouring powers of two. */
  lemma CountBitsBounds(a: BigNum)
    requires a.Valid()
    ensures a.Value() < Pow2(CountBits(a))
    ensures a.dp != [] ==> CountBits(a) > 0 && Pow2(CountBits(a) - 1) <= a.Value()
  {
    if a.dp != [] {
      BitsOfBounds(a.dp, DIGIT_BIT);
    }
  }

  lemma CountedBitHasDigit(a: BigNum, idx: nat)
    requires a.Valid() && idx < CountBits(a)
    ensures idx / DIGIT_BIT < |a.dp|
  {
    BitLengthAtMost(a.dp[|a.dp| - 1], DIGIT_BIT);
  }

  /** Bit m of digit n is bit n * w + m of the number. */
  lemma {:induction false} DigitBit(dp: seq<nat>, w: nat, n: nat, m: nat)
    requires Digits(dp, w) && n < |dp| && m < w
    ensures (ValueOf(dp, w) / Pow2(n * w + m)) % 2 == (dp[n] / Pow2(m)) % 2
  {
    var d, rest := dp[0], ValueOf(dp[1..], w);
    if n == 0 {
      LowDigitBit(d, rest, w, m);
    } else {
      var k := (n - 1) * w + m;
      DigitBit(dp[1..], w, n - 1, m);
      assert n * w + m == w + k;
      PowAdd(2, w, k);
      DivModUnique(ValueOf(dp, w), Pow2(w), rest, d);
      DivDiv(ValueOf(dp, w), Pow2(w), Pow2(k));
    }
  }

  /** Reading a bit out of its base-2^28 digit reads that bit of the value. */
  lemma GetBitIsBitOfValue(a: BigNum, idx: nat)
    requires a.Valid() && idx < INDEX_LIMIT
    requires a.dp != [] ==> idx / DIGIT_BIT < |a.dp|
    ensures GetBit(a, idx) == (a.Value() / Pow2(idx)) % 2
  {
    if a.dp == [] {
      DivModUnique(0, Pow2(idx), 0, 0);
    } else {
      DigitBit(a.dp, DIGIT_BIT, idx / DIGIT_BIT, idx % DIGIT_BIT);
    }
  }

  lemma TwoDigitsAndRest(dp: seq<nat>, w: nat)
    requires |dp| > 1
    ensures ValueOf(dp, w) == dp[0] + dp[1] * Pow2(w) + Pow2(w + w) * ValueOf(dp[2..], w)
  {
    var b, rest := Pow2(w), ValueOf(dp[2..], w);
    assert dp[1..][1..] == dp[2..];
    Distribute(b, dp[1], b * rest);
    Assoc(b, b, rest);
    PowAdd(2, w, w);
  }

  /** The two lowest digits of w bits give the number modulo 2^v when they cover it. */
  lemma LowBits(dp: seq<nat>, w: nat, v: nat)
    requires Digits(dp, w) && |dp| > 1 && v <= w + w
    ensures (dp[0] + (dp[1] * Pow2(w)) % Pow2(v)) % Pow2(v) == ValueOf(dp, w) % Pow2(v)
  {
    TwoDigitsAndRest(dp, w);
    PowAdd(2, v, w + w - v);
    CutLate(ValueOf(dp, w), dp[0], dp[1] * Pow2(w), Pow2(w + w), Pow2(v), Pow2(w + w - v), ValueOf(dp[2..], w));
  }

  lemma CutLate(value: nat, d: nat, x: nat, full: nat, m: nat, gap: nat, rest: nat)
    requires m > 0 && full == m * gap && value == d + x + full * rest
    ensures (d + x % m) % m == value % m
  {
    var k := gap * rest;
    assert value == d + x + m * k by { Assoc(m, gap, rest); }
    ModAddMultiple(d + x, k, m);
    CutTerm(d, x, m);
  }

  lemma CutTerm(d: nat, x: nat, m: nat)
    requires m > 0
    ensures (d + x % m) % m == (d + x) % m
  {
    ModAddMultiple(d + x % m, x / m, m);
  }

  lemma OnlyDigit(dp: seq<nat>, w: nat, v: nat)
    requires Digits(dp, w) && |dp| == 1 && w <= v
    ensures dp[0] == ValueOf(dp, w) % Pow2(v)
  {
    assert ValueOf(dp[1..], w) == 0;
    Pow2Monotone(w, v);
    DivModUnique(dp[0], Pow2(v), 0, dp[0]);
  }
}

/** Montgomery products modulo an odd number. */
module Montgomery {
  import opened Arith

  /** The inverse of two modulo an odd n. */
  function Half(n: nat): nat {
    (n + 1) / 2
  }

  /** x * y * 2^-k modulo n, fully reduced. */
  function Mont(x: nat, y: nat, n: nat, k: nat): (r: nat)
    requires n > 0
    ensures r < n
  {
    (x * y * Pow(Half(n), k)) % n
  }

  lemma HalfPowers(n: nat, k: nat)
    requires n % 2 == 1
    ensures (Pow2(k) * Pow(Half(n), k)) % n == 1 % n
  {
    PowOfProduct(2, Half(n), k);
    assert 2 * Half(n) == n + 1;
    ModAddMultiple(1, 1, n);
    ModPow(n + 1, k, n);
    ModPow(1, k, n);
    PowOfOne(k);
  }

  lemma {:induction false} PowOfOne(k: nat)
    ensures Pow(1, k) == 1
  {
    if k > 0 {
      PowOfOne(k - 1);
    }
  }

  /** Scaling by 2^k and then by its inverse changes nothing modulo n. */
  lemma Unscale(z: nat, n: nat, k: nat)
    requires n % 2 == 1
    ensures (z * Pow2(k) * Pow(Half(n), k)) % n == z % n
  {
    var r, s := Pow2(k), Pow(Half(n), k);
    HalfPowers(n, k);
    Assoc(z, r, s);
    ModMulLeft(r * s, z, n);
    ModMulLeft(1, z, n);
    assert (r * s) * z == z * (r * s);
  }

  /** Mont is the one residue r for which r * 2^k is congruent to x * y. */
  lemma MontIsTheMontgomeryProduct(x: nat, y: nat, n: nat, k: nat, r: nat)
    requires n % 2 == 1 && r < n
    ensures (r * Pow2(k)) % n == (x * y) % n <==> r == Mont(x, y, n, k)
  {
    var s := Pow(Half(n), k);
    if (r * Pow2(k)) % n == (x * y) % n {
      Unscale(r, n, k);
      ModMulLeft(r * Pow2(k), s, n);
      ModMulLeft(x * y, s, n);
      DivModUnique(r, n, 0, r);
    }
    if r == Mont(x, y, n, k) {
      ModMulLeft(x * y * s, Pow2(k), n);
      assert x * y * s * Pow2(k) == x * y * Pow2(k) * s by {
        Assoc(x * y, s, Pow2(k));
        Assoc(x * y, Pow2(k), s);
      }
      Unscale(x * y, n, k);
    }
  }

  /** Montgomery form. */
  ghost function Scaled(p: nat, n: nat, k: nat): nat
    requires n > 0
  {
    (p * Pow2(k)) % n
  }

  /** Montgomery form is kept: the product of scaled p and scaled q is scaled p * q. */
  lemma MontOfScaled(p: nat, q: nat, n: nat, k: nat)
    requires n % 2 == 1
    ensures Mont(Scaled(p, n, k), Scaled(q, n, k), n, k) == Scaled(p * q, n, k)
  {
    var r, s := Pow2(k), Pow(Half(n), k);
    var x, y := p * r, q * r;
    ModMul(x, y, n);
    ModMulLeft((x % n) * (y % n), s, n);
    ModMulLeft(x * y, s, n);
    assert x * y == (p * q * r) * r by {
      Interchange(p, r, q, r);
      Assoc(p * q, r, r);
    }
    Unscale(p * q * r, n, k);
  }

  /** Multiplying by a plain one leaves Montgomery form. */
  lemma MontByOne(p: nat, n: nat, k: nat)
    requires n % 2 == 1
    ensures Mont(Scaled(p, n, k), 1, n, k) == p % n
    ensures Mont(1, Scaled(p, n, k), n, k) == p % n
  {
    var r, s := Pow2(k), Pow(Half(n), k);
    ModMulLeft(p * r, s, n);
    Unscale(p, n, k);
  }
}

/** The RSA unit as tls_crypto_exptmod drives it, and the software around it. */
module ExpMod {
  import opened Arith
  import opened Bignum
  import opened Montgomery

  const WORD: nat := 32
  const MAX_WORDS: nat := 64

  /**
   * The multiplier's registers. A product of the unit is the Montgomery product
   * for 2^(32 * len), provided the modulus is odd and fits, and mc is minus its
   * inverse modulo one word. Arm is where the software shows that it has set these
   * up; writing any of the three registers disarms the unit.
   */
  class MontgomeryDevice {
    var A: nat
    var B: nat
    var D: nat
    var M: nat
    var len: nat
    var mc: nat
    ghost var armed: bool

    constructor ()
      ensures !armed
    {
      armed := false;
    }

    ghost method Arm()
      requires M % 2 == 1
      requires M < Pow2(WORD * len)
      requires (mc * M) % Pow2(WORD) == Pow2(WORD) - 1
      modifies this`armed
      ensures armed
    {
      armed := true;
    }

    method SetLen(words: nat)
      modifies this`len, this`armed
      ensures len == words && !armed
    {
      len := words;
      armed := false;
    }

    method WriteMc(c: nat)
      modifies this`mc, this`armed
      ensures mc == c && !armed
    {
      mc := c;
      armed := false;
    }

    /** Only RSAN words are copied into a buffer. */
    method WriteA(x: nat)
      modifies this`A
      ensures A == x % Pow2(WORD * len)
    {
      A := x % Pow2(WORD * len);
    }

    method WriteB(x: nat)
      modifies this`B
      ensures B == x % Pow2(WORD * len)
    {
      B := x % Pow2(WORD * len);
    }

    method WriteM(x: nat)
      modifies this`M, this`armed
      ensures M == x % Pow2(WORD * len) && !armed
    {
      M := x % Pow2(WORD * len);
      armed := false;
    }

    method MulAA()
      requires armed && M > 0
      modifies this`D
      ensures D == Mont(A, A, M, WORD * len)
    {
      D := Mont(A, A, M, WORD * len);
    }

    method MulDD()
      requires armed && M > 0
      modifies this`A
      ensures A == Mont(D, D, M, WORD * len)
    {
      A := Mont(D, D, M, WORD * len);
    }

    method MulAB()
      requires armed && M > 0
      modifies this`D
      ensures D == Mont(A, B, M, WORD * len)
    {
      D := Mont(A, B, M, WORD * len);
    }

    method MulBD()
      requires armed && M > 0
      modifies this`A
      ensures A == Mont(B, D, M, WORD * len)
    {
      A := Mont(B, D, M, WORD * len);
    }
  }

  /**
   * Minus the inverse of an odd number modulo 2^w, one bit a round. The loop keeps
   * input * y congruent to 1 modulo 2^(j + 1) after j rounds.
   */
  method CalMc(w: nat, input: nat) returns (mc: nat)
    requires w > 0 && input % 2 == 1
    ensures mc < Pow2(w)
    ensures (mc * input) % Pow2(w) == Pow2(w) - 1
  {
    var y := 1;
    var left := 1;
    var i := w - 1;
    PowAdd(2, 0, 1);
    while i != 0
      invariant 0 <= i <= w - 1
      invariant left == Pow2(w - 1 - i)
      invariant 0 < y < 2 * left
      invariant (input * y) % (2 * left) == 1
    {
      left := 2 * left;
      assert left == Pow2(w - i);
      var right := ((input * y) % Pow2(w) / left) % 2;
      BitBelowWord(input * y, w, w - i);
      LiftInverse(input, y, left, right);
      if right != 0 {
        y := y + left;
      }
      i := i - 1;
    }
    mc := (Pow2(w) - y) % Pow2(w);
    NegatedInverse(input, y, Pow2(w));
  }

  /** A bit below the word size survives the truncation to a word. */
  lemma BitBelowWord(x: nat, w: nat, j: nat)
    requires j < w
    ensures (x % Pow2(w) / Pow2(j)) % 2 == (x / Pow2(j)) % 2
  {
    PowAdd(2, j, w - j);
    DivOfMod(x, Pow2(j), Pow2(w - j));
    PowAdd(2, 1, w - j - 1);
    ModOfMod(x / Pow2(j), 2, Pow2(w - j - 1));
  }

  lemma OneModDouble(p: nat, q: nat)
    requires p > 0 && q % 2 == 0
    ensures (p * q + 1) % (2 * p) == 1
  {
    var h := q / 2;
    assert p * q == (2 * p) * h by { Assoc(p, 2, h); }
    DivModUnique(p * q + 1, 2 * p, h, 1);
  }

  /** One Hensel step: an inverse modulo p becomes an inverse modulo 2 * p. */
  lemma LiftInverse(input: nat, y: nat, p: nat, bit: nat)
    requires p > 1 && input % 2 == 1
    requires (input * y) % p == 1
    requires bit == (input * y / p) % 2
    ensures (input * (if bit != 0 then y + p else y)) % (2 * p) == 1
  {
    var q := input * y / p;
    assert input * y == p * q + 1;
    if bit == 0 {
      OneModDouble(p, q);
    } else {
      Distribute(input, y, p);
      Distribute(p, q, input);
      OneModDouble(p, q + input);
    }
  }

  lemma NegatedInverse(input: nat, y: nat, m: nat)
    requires 1 < m && 0 < y < m
    requires (input * y) % m == 1
    ensures (((m - y) % m) * input) % m == m - 1
  {
    var q := input * y / m;
    assert input * y == m * q + 1;
    DivModUnique(m - y, m, 0, m - y);
    assert (m - y) * input == m * (input - q - 1) + (m - 1) by {
      Distribute(m, input, - q - 1);
      assert (m - y) * input == m * input - y * input;
    }
    ModAddMultiple(m - 1, input - q - 1, m);
    DivModUnique(m - 1, m, 0, m - 1);
  }

  /** The constant is the only one of its word that serves. */
  lemma McIsUnique(input: nat, w: nat, c: nat, d: nat)
    requires w > 0 && input % 2 == 1 && c < Pow2(w) && d < Pow2(w)
    requires (c * input) % Pow2(w) == (d * input) % Pow2(w)
    ensures c == d
  {
    var m := Pow2(w);
    var y := OddInverseExists(input, w);
    CancelUnit(c, input, y, m);
    CancelUnit(d, input, y, m);
    ModMulLeft(c * input, y, m);
    ModMulLeft(d * input, y, m);
  }

  lemma CancelUnit(c: nat, x: nat, y: int, m: nat)
    requires c < m && (x * y) % m == 1
    ensures ((c * x) * y) % m == c
  {
    Assoc(c, x, y);
    ModMulLeft(x * y, c, m);
    ModMulLeft(1, c, m);
    assert (x * y) * c == c * (x * y);
    DivModUnique(c, m, 0, c);
  }

  lemma {:induction false} OddInverseExists(input: nat, w: nat) returns (y: nat)
    requires w > 0 && input % 2 == 1
    ensures (input * y) % Pow2(w) == 1
  {
    if w == 1 {
      y := 1;
      assert Pow2(1) == 2 * Pow2(0);
    } else {
      var z := OddInverseExists(input, w - 1);
      var p := Pow2(w - 1);
      assert p == 2 * Pow2(w - 2);
      var bit := (input * z / p) % 2;
      LiftInverse(input, z, p, bit);
      y := if bit != 0 then z + p else z;
    }
  }

  /** The number spelled by the bits of e from bit i up. */
  ghost function Prefix(e: nat, i: nat): nat {
    e / Pow2(i)
  }

  lemma NextPrefix(e: nat, i: nat)
    ensures Prefix(e, i) == 2 * Prefix(e, i + 1) + (e / Pow2(i)) % 2
  {
    PowAdd(2, i, 1);
    assert Pow(2, 1) == 2 * Pow(2, 0);
    DivDiv(e, Pow2(i), 2);
  }

  lemma NoPrefix(e: BigNum)
    requires e.Valid()
    ensures Prefix(e.Value(), CountBits(e)) == 0
  {
    CountBitsBounds(e);
    DivModUnique(e.Value(), Pow2(CountBits(e)), 0, e.Value());
  }

  lemma WholePrefix(e: nat)
    ensures Prefix(e, 0) == e
  {
    DivModUnique(e, Pow2(0), e, 0);
  }

  /** What one turn of the loop makes of the accumulator. */
  ghost function Turned(acc: nat, b: nat, bit: nat, n: nat, k: nat): nat
    requires n > 0
  {
    var sq := Mont(acc, acc, n, k);
    if bit == 1 then Mont(sq, b, n, k) else sq
  }

  /**
   * Squaring, and multiplying by the base when the next bit is set, takes the scaled
   * power of one prefix h of the exponent to that of the next prefix 2 * h + bit.
   */
  lemma TurnExtendsPrefix(a: nat, h: nat, bit: nat, n: nat, k: nat)
    requires n % 2 == 1 && bit < 2
    ensures Turned(Scaled(Pow(a, h), n, k), Scaled(a, n, k), bit, n, k)
         == Scaled(Pow(a, 2 * h + bit), n, k)
  {
    MontOfScaled(Pow(a, h), Pow(a, h), n, k);
    PowAdd(a, h, h);
    if bit == 1 {
      MontOfScaled(Pow(a, 2 * h), a, n, k);
      PowNext(a, 2 * h);
    }
  }

  lemma PowNext(a: nat, e: nat)
    ensures Pow(a, e + 1) == Pow(a, e) * a
  {
  }

  lemma MontCommutes(x: nat, y: nat, n: nat, k: nat)
    requires n > 0
    ensures Mont(x, y, n, k) == Mont(y, x, n, k)
  {
    assert x * y == y * x;
  }

  lemma OddHasDigits(n: BigNum)
    requires n.Valid() && n.Value() % 2 == 1
    ensures n.dp != []
  {
  }

  /** Both ways of forming dp0 give the modulus modulo 2^32, an odd number. */
  lemma LowWordOfModulus(n: BigNum)
    requires n.Valid() && n.Value() % 2 == 1 && n.dp != []
    ensures (n.Value() % Pow2(WORD)) % 2 == 1
    ensures n.Value() % Pow2(WORD)
         == if |n.dp| > 1 then (n.dp[0] + (n.dp[1] * Pow2(DIGIT_BIT)) % Pow2(WORD)) % Pow2(WORD)
            else n.dp[0]
  {
    PowAdd(2, 1, WORD - 1);
    ModOfMod(n.Value(), 2, Pow2(WORD - 1));
    if |n.dp| > 1 {
      LowBits(n.dp, DIGIT_BIT, WORD);
    } else {
      OnlyDigit(n.dp, DIGIT_BIT, WORD);
    }
  }

  /** Every residue of the modulus fits in the words the unit was set to. */
  lemma ModulusFits(n: BigNum, bits: nat)
    requires n.Valid() && n.dp != [] && bits >= CountBits(n)
    ensures n.Value() < Pow2(bits) && 1 < Pow2(bits)
    ensures forall x: nat | x <= n.Value() :: x % Pow2(bits) == x
    ensures 1 % Pow2(bits) == 1
  {
    CountBitsBounds(n);
    Pow2Monotone(CountBits(n), bits);
    Pow2Monotone(1, bits);
    forall x: nat | x < Pow2(bits)
      ensures x % Pow2(bits) == x
    {
      DivModUnique(x, Pow2(bits), 0, x);
    }
  }

  /** low | high, where the bits of a digit are clear in high. */
  function OrAbove(low: nat, high: nat): nat
    requires low < Pow2(DIGIT_BIT) && high % Pow2(DIGIT_BIT) == 0
  {
    low + high
  }

  lemma ShiftedDigit(d: nat)
    ensures (d * Pow2(DIGIT_BIT)) % Pow2(WORD) % Pow2(DIGIT_BIT) == 0
  {
    var p, q := Pow2(DIGIT_BIT), Pow2(WORD - DIGIT_BIT);
    PowAdd(2, DIGIT_BIT, WORD - DIGIT_BIT);
    ModOfMod(d * p, p, q);
    DivModUnique(d * p, p, d, 0);
  }

  /** The per-word constant of the modulus, from its lowest 32 bits. */
  method McOf(n: BigNum) returns (mc: nat)
    requires n.Valid() && n.Value() % 2 == 1
    ensures mc < Pow2(WORD)
    ensures (mc * n.Value()) % Pow2(WORD) == Pow2(WORD) - 1
  {
    OddHasDigits(n);
    LowWordOfModulus(n);
    var dp0 := n.dp[0];
    if |n.dp| > 1 {
      ShiftedDigit(n.dp[1]);
      dp0 := OrAbove(n.dp[0], (n.dp[1] * Pow2(DIGIT_BIT)) % Pow2(WORD)) % Pow2(WORD);
    }
    mc := CalMc(WORD, dp0);
    ModMulRight(mc, n.Value(), Pow2(WORD));
  }

  /**
   * Sets the unit up for the modulus n: word length, per-word constant, modulus, the
   * base a in Montgomery form in B, and one in Montgomery form in A.
   */
  method Load(dev: MontgomeryDevice, a: BigNum, n: BigNum) returns (ghost bits: nat)
    requires a.Valid() && n.Valid()
    requires n.Value() % 2 == 1
    requires CountBits(n) <= 2048
    modifies dev
    ensures CountBits(n) <= bits == 32 * dev.len < CountBits(n) + 32
    ensures dev.armed && dev.M == n.Value()
    ensures dev.B == Scaled(a.Value(), n.Value(), bits)
    ensures dev.A == Scaled(1, n.Value(), bits)
  {
    var k := CountBits(n);
    k := (k / WORD + if k % WORD > 0 then 1 else 0) * WORD;
    bits := k;
    OddHasDigits(n);
    ModulusFits(n, bits);
    var R := Pow2(k) % n.Value();
    var X := (a.Value() * R) % n.Value();
    ModMulRight(a.Value(), Pow2(bits), n.Value());
    var Y := R;
    var mc := McOf(n);
    k := CountBits(n);
    dev.SetLen(k / WORD + if k % WORD == 0 then 0 else 1);
    dev.WriteMc(mc);
    dev.WriteM(n.Value());
    dev.WriteB(X);
    dev.WriteA(Y);
    dev.Arm();
  }

  lemma ModMulRight(x: int, y: int, n: int)
    requires n > 0
    ensures (x * (y % n)) % n == (x * y) % n
  {
    ModMulLeft(y, x, n);
    assert (y % n) * x == x * (y % n) && y * x == x * y;
  }

  /** The accumulator in use: the unit writes squares and products to the other buffer. */
  ghost function Live(dev: MontgomeryDevice, monmulFlag: nat): nat
    reads dev
  {
    if monmulFlag == 0 then dev.A else dev.D
  }

  /** One turn of the exponent loop, alternating between the two accumulators. */
  method Turn(dev: MontgomeryDevice, flag: nat, bit: nat) returns (monmulFlag: nat)
    requires dev.armed && dev.M > 0 && flag < 2 && bit < 2
    modifies dev`A, dev`D
    ensures monmulFlag == (flag + 1 + bit) % 2
    ensures Live(dev, monmulFlag)
         == Turned(old(Live(dev, flag)), dev.B, bit, dev.M, WORD * dev.len)
  {
    monmulFlag := flag;
    if monmulFlag == 0 {
      dev.MulAA();
      monmulFlag := 1;
    } else {
      dev.MulDD();
      monmulFlag := 0;
    }
    if bit != 0 {
      if monmulFlag == 0 {
        dev.MulAB();
        monmulFlag := 1;
      } else {
        MontCommutes(dev.B, dev.D, dev.M, WORD * dev.len);
        dev.MulBD();
        monmulFlag := 0;
      }
    }
  }

  /** Multiplies the live accumulator by one and reads the buffer the product is in. */
  method LeaveMontgomeryForm(dev: MontgomeryDevice, monmulFlag: nat, ghost p: nat) returns (res: nat)
    requires dev.armed && dev.M % 2 == 1 && dev.len > 0
    requires Live(dev, monmulFlag) == Scaled(p, dev.M, WORD * dev.len)
    modifies dev`A, dev`B, dev`D
    ensures res == p % dev.M
  {
    Pow2Monotone(1, WORD * dev.len);
    DivModUnique(1, Pow2(WORD * dev.len), 0, 1);
    MontByOne(p, dev.M, WORD * dev.len);
    dev.WriteB(1);
    if monmulFlag == 0 {
      dev.MulAB();
      res := dev.D;
    } else {
      dev.MulBD();
      res := dev.A;
    }
  }

  /** res = a^e mod n on the Montgomery unit, most significant bit of e first. */
  method ExpMod(dev: MontgomeryDevice, a: BigNum, e: BigNum, n: BigNum) returns (res: nat)
    requires a.Valid() && e.Valid() && n.Valid()
    requires n.Value() % 2 == 1
    requires CountBits(n) <= 2048 && CountBits(e) <= 32768
    modifies dev
    ensures res == Pow(a.Value(), e.Value()) % n.Value()
  {
    ghost var va, ve, vn := a.Value(), e.Value(), n.Value();
    ghost var bits := Load(dev, a, n);
    OddHasDigits(n);
    ModulusFits(n, bits);
    var monmulFlag: nat := 0;
    var k: int := CountBits(e);
    NoPrefix(e);
    var i := k - 1;
    while i >= 0
      invariant -1 <= i <= k - 1
      invariant monmulFlag < 2
      invariant dev.armed && dev.M == vn && WORD * dev.len == bits
      invariant dev.B == Scaled(va, vn, bits)
      invariant Live(dev, monmulFlag) == Scaled(Pow(va, Prefix(ve, i + 1)), vn, bits)
    {
      CountedBitHasDigit(e, i);
      GetBitIsBitOfValue(e, i);
      NextPrefix(ve, i);
      var bit := GetBit(e, i);
      TurnExtendsPrefix(va, Prefix(ve, i + 1), bit, vn, bits);
      monmulFlag := Turn(dev, monmulFlag, bit);
      i := i - 1;
    }
    WholePrefix(ve);
    res := LeaveMontgomeryForm(dev, monmulFlag, Pow(va, ve));
  }
}
