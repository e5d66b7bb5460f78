/**
 * Shift registers in their reflected form, lowest bit first. The polynomial is given by
 * its reflected bits; its last bit is the constant term.
 */
module Lfsr {

  type Bits = seq<bool>

  /** One data bit: the register moves down by one, the feedback adds the polynomial. */
  function Step(r: Bits, poly: Bits, d: bool): (s: Bits)
    requires 0 < |r| == |poly|
    ensures |s| == |r|
  {
    var feedback := r[0] != d;
    seq(|r|, i requires 0 <= i < |r| => (i + 1 < |r| && r[i + 1]) != (poly[i] && feedback))
  }

  function Feed(r: Bits, poly: Bits, data: Bits): (s: Bits)
    requires 0 < |r| == |poly|
    ensures |s| == |r|
    decreases |data|
  {
    if data == [] then r else Feed(Step(r, poly, data[0]), poly, data[1..])
  }

  lemma {:induction false} FeedConcat(r: Bits, poly: Bits, a: Bits, b: Bits)
    requires 0 < |r| == |poly|
    ensures Feed(r, poly, a + b) == Feed(Feed(r, poly, a), poly, b)
    decreases |a|
  {
    if a == [] {
      assert a + b == b;
    } else {
      assert (a + b)[0] == a[0] && (a + b)[1..] == a[1..] + b;
      FeedConcat(Step(r, poly, a[0]), poly, a[1..], b);
    }
  }

  /** The bits of all items, one item after the other. */
  function Spread<T>(bits: T -> Bits, data: seq<T>): Bits {
    if data == [] then [] else bits(data[0]) + Spread(bits, data[1..])
  }

  lemma {:induction false} SpreadConcat<T>(bits: T -> Bits, a: seq<T>, b: seq<T>)
    ensures Spread(bits, a + b) == Spread(bits, a) + Spread(bits, b)
  {
    if a == [] {
      assert a + b == b;
    } else {
      SpreadConcat(bits, a[1..], b);
      assert (a + b)[0] == a[0] && (a + b)[1..] == a[1..] + b;
      Regroup(bits(a[0]), Spread(bits, a[1..]), Spread(bits, b));
    }
  }

  lemma Regroup(x: Bits, y: Bits, z: Bits)
    ensures x + (y + z) == x + y + z
  {
  }

  lemma SpreadOne<T>(bits: T -> Bits, x: T)
    ensures Spread(bits, [x]) == bits(x)
  {
    assert [x][1..] == [];
    assert bits(x) + [] == bits(x);
  }

  /** A register taken through the data, an item a step. */
  function Through<R, T>(step: (R, T) -> R, r: R, data: seq<T>): R
    decreases |data|
  {
    if data == [] then r else Through(step, step(r, data[0]), data[1..])
  }

  lemma {:induction false} ThroughConcat<R, T>(step: (R, T) -> R, r: R, a: seq<T>, b: seq<T>)
    ensures Through(step, r, a + b) == Through(step, Through(step, r, a), b)
    decreases |a|
  {
    if a == [] {
      assert a + b == b;
    } else {
      assert (a + b)[0] == a[0] && (a + b)[1..] == a[1..] + b;
      ThroughConcat(step, step(r, a[0]), a[1..], b);
    }
  }

  lemma ThroughNext<R, T>(step: (R, T) -> R, r: R, data: seq<T>, i: nat)
    requires i < |data|
    ensures Through(step, r, data[i..]) == Through(step, step(r, data[i]), data[i + 1..])
  {
    assert data[i..][1..] == data[i + 1..];
  }

  lemma ThroughOne<R, T>(step: (R, T) -> R, r: R, x: T)
    ensures Through(step, r, [x]) == step(r, x)
  {
    assert [x][1..] == [];
  }

  /** f, n times over. */
  function Iterate<T>(f: T -> T, v: T, n: nat): T
    decreases n
  {
    if n == 0 then v else Iterate(f, f(v), n - 1)
  }

  lemma IterateEight<T>(f: T -> T, v: T)
    ensures Iterate(f, v, 8) == f(f(f(f(f(f(f(f(v))))))))
  {
    var x := f(f(f(f(v))));
    assert Iterate(f, v, 8) == Iterate(f, f(f(v)), 6) == Iterate(f, x, 4);
    assert Iterate(f, x, 4) == Iterate(f, f(f(x)), 2) == f(f(f(f(x))));
  }

  /** The heads of what tail leads to, n times over. */
  function Unroll<T>(head: T -> bool, tail: T -> T, v: T, n: nat): (b: Bits)
    ensures |b| == n
    decreases n
  {
    if n == 0 then [] else [head(v)] + Unroll(head, tail, tail(v), n - 1)
  }

  lemma UnrollFour<T>(head: T -> bool, tail: T -> T, v: T, n: nat)
    ensures var x := tail(tail(tail(tail(v))));
            Unroll(head, tail, v, n + 4)
            == [head(v), head(tail(v)), head(tail(tail(v))), head(tail(tail(tail(v))))] + Unroll(head, tail, x, n)
  {
    var u := tail(tail(v));
    assert Unroll(head, tail, v, n + 4) == [head(v)] + Unroll(head, tail, tail(v), n + 3);
    assert Unroll(head, tail, v, n + 4) == [head(v), head(tail(v))] + Unroll(head, tail, u, n + 2);
    assert Unroll(head, tail, u, n + 2) == [head(u)] + Unroll(head, tail, tail(u), n + 1);
  }

  /** A register with t added to its lowest bits. */
  function Added(s: Bits, t: Bits): (r: Bits)
    ensures |r| == |s|
  {
    seq(|s|, i requires 0 <= i < |s| => s[i] != (i < |t| && t[i]))
  }

  /** Data with t added to its first bits. */
  function Flipped(t: Bits, x: Bits): (r: Bits)
    ensures |r| == |x|
  {
    seq(|x|, i requires 0 <= i < |x| => x[i] != (i < |t| && t[i]))
  }

  lemma StepWithPending(s: Bits, t: Bits, poly: Bits, d: bool)
    requires 0 < |t| <= |s| == |poly|
    ensures Step(Added(s, t), poly, d) == Added(Step(s, poly, t[0] != d), t[1..])
  {
  }

  /** What is added to the register before the data come is as well added to the data. */
  lemma {:induction false} PendingBits(s: Bits, t: Bits, poly: Bits, x: Bits)
    requires 0 < |s| == |poly| && |t| <= |s| && |t| <= |x|
    ensures Feed(Added(s, t), poly, x) == Feed(s, poly, Flipped(t, x))
    decreases |t|
  {
    if t == [] {
      assert Added(s, t) == s && Flipped(t, x) == x;
    } else {
      StepWithPending(s, t, poly, x[0]);
      PendingBits(Step(s, poly, t[0] != x[0]), t[1..], poly, x[1..]);
      assert Flipped(t, x)[1..] == Flipped(t[1..], x[1..]);
    }
  }

  /** Two registers differ at some position no lower than p. */
  ghost predicate ApartFrom(r: Bits, s: Bits, p: int)
    requires |r| == |s|
  {
    exists i | 0 <= i < |r| && p <= i :: r[i] != s[i]
  }

  /** The highest difference sinks by one, or the feedback makes a new one at the top. */
  lemma StepKeepsApart(r: Bits, s: Bits, poly: Bits, d: bool, e: bool, p: int)
    requires 0 < |r| == |s| == |poly| && poly[|poly| - 1]
    requires (r[0] != d) != (s[0] != e) || (p >= 1 && ApartFrom(r, s, p))
    requires p <= |r|
    ensures ApartFrom(Step(r, poly, d), Step(s, poly, e), p - 1)
  {
    var r', s' := Step(r, poly, d), Step(s, poly, e);
    if (r[0] != d) != (s[0] != e) {
      assert r'[|r| - 1] != s'[|r| - 1];
    } else {
      var i :| 0 <= i < |r| && p <= i && r[i] != s[i];
      assert r'[i - 1] != s'[i - 1];
    }
  }

  lemma Differ(r: Bits, s: Bits)
    requires |r| == |s|
    ensures r != s <==> ApartFrom(r, s, 0)
  {
    if !ApartFrom(r, s, 0) {
      assert forall i | 0 <= i < |r| :: r[i] == s[i];
    }
  }

  /** The same bits never bring two different registers together. */
  lemma {:induction false} FeedInjective(r: Bits, s: Bits, poly: Bits, data: Bits)
    requires 0 < |r| == |s| == |poly| && poly[|poly| - 1]
    ensures Feed(r, poly, data) == Feed(s, poly, data) ==> r == s
    decreases |data|
  {
    if data != [] {
      var r', s' := Step(r, poly, data[0]), Step(s, poly, data[0]);
      FeedInjective(r', s', poly, data[1..]);
      if r != s {
        Differ(r, s);
        if r[0] == s[0] {
          assert ApartFrom(r, s, 1);
          StepKeepsApart(r, s, poly, data[0], data[0], 1);
        } else {
          StepKeepsApart(r, s, poly, data[0], data[0], 1);
        }
        Differ(r', s');
      }
    }
  }

  lemma {:induction false} FeedKeepsApart(r: Bits, s: Bits, poly: Bits, x: Bits, y: Bits, p: nat)
    requires 0 < |r| == |s| == |poly| && poly[|poly| - 1]
    requires |x| == |y| <= p < |r| && ApartFrom(r, s, p)
    ensures Feed(r, poly, x) != Feed(s, poly, y)
    decreases |x|
  {
    if x == [] {
      Differ(r, s);
    } else {
      StepKeepsApart(r, s, poly, x[0], y[0], p);
      FeedKeepsApart(Step(r, poly, x[0]), Step(s, poly, y[0]), poly, x[1..], y[1..], p - 1);
    }
  }

  /** Different strings no longer than the register lead it to different states. */
  lemma {:induction false} WindowDetected(r: Bits, poly: Bits, x: Bits, y: Bits)
    requires 0 < |r| == |poly| && poly[|poly| - 1]
    requires |x| == |y| <= |r| && x != y
    ensures Feed(r, poly, x) != Feed(r, poly, y)
    decreases |x|
  {
    if x[0] == y[0] {
      assert x == [x[0]] + x[1..] && y == [y[0]] + y[1..];
      WindowDetected(Step(r, poly, x[0]), poly, x[1..], y[1..]);
    } else {
      StepKeepsApart(r, r, poly, x[0], y[0], |r|);
      FeedKeepsApart(Step(r, poly, x[0]), Step(r, poly, y[0]), poly, x[1..], y[1..], |r| - 1);
    }
  }

  /**
   * Every burst of errors no longer than the register is detected: two strings that
   * agree outside such a window, and not within it, leave different registers.
   */
  lemma BurstDetected(r: Bits, poly: Bits, a: Bits, x: Bits, y: Bits, b: Bits)
    requires 0 < |r| == |poly| && poly[|poly| - 1]
    requires |x| == |y| <= |r| && x != y
    ensures Feed(r, poly, a + x + b) != Feed(r, poly, a + y + b)
  {
    var s := Feed(r, poly, a);
    FeedConcat(r, poly, a + x, b);
    FeedConcat(r, poly, a, x);
    FeedConcat(r, poly, a + y, b);
    FeedConcat(r, poly, a, y);
    WindowDetected(s, poly, x, y);
    FeedInjective(Feed(s, poly, x), Feed(s, poly, y), poly, b);
  }
}

/**
 * The CRC-32 of utils.c. A word is the sequence of its bits, lowest first; the C code
 * takes words apart into such bits itself.
 */
module Crc32 {
  import opened Lfsr

  type Word = w: seq<bool> | |w| == 32 witness seq(32, i => false)
  type Byte = b: seq<bool> | |b| == 8 witness seq(8, i => false)

  /** 0x04C11DB7: x^26 + x^23 + x^22 + x^16 + x^12 + x^11 + x^10 + x^8 + x^7 + x^5 + x^4 + x^2 + x + 1 */
  predicate Tap(i: int) {
    i == 0 || i == 1 || i == 2 || i == 4 || i == 5 || i == 7 || i == 8 || i == 10 || i == 11
    || i == 12 || i == 16 || i == 22 || i == 23 || i == 26
  }

  /** The textbook register: one data bit, highest bit of the register first. */
  function Shift(c: Word, d: bool): Word {
    var feedback := c[31] != d;
    seq(32, i requires 0 <= i < 32 => (i > 0 && c[i - 1]) != (Tap(i) && feedback))
  }

  /** The first k bits of a byte, lowest first. */
  function ShiftBits(c: Word, d: Byte, k: nat): Word
    requires k <= 8
  {
    if k == 0 then c else Shift(ShiftBits(c, d, k - 1), d[k - 1])
  }

  /** The 32 equations of _cal_crc32, one for each bit of the result. */
  function Equation(c: Word, d: Byte, i: nat): bool
    requires i < 32
  {
    match i
    case 0 => (((d[1] != d[7]) != c[30]) != c[24])
    case 1 => (((((((d[0] != d[1]) != d[6]) != d[7]) != c[31]) != c[30]) != c[25]) != c[24])
    case 2 => (((((((((d[0] != d[1]) != d[5]) != d[6]) != d[7]) != c[31]) != c[30]) != c[26]) != c[25]) != c[24])
    case 3 => (((((((d[0] != d[4]) != d[5]) != d[6]) != c[31]) != c[27]) != c[26]) != c[25])
    case 4 => (((((((((d[1] != d[3]) != d[4]) != d[5]) != d[7]) != c[30]) != c[28]) != c[27]) != c[26]) != c[24])
    case 5 => (((((((((((((d[0] != d[1]) != d[2]) != d[3]) != d[4]) != d[6]) != d[7]) != c[31]) != c[30]) != c[29]) != c[28]) != c[27]) != c[25]) != c[24])
    case 6 => (((((((((((d[0] != d[1]) != d[2]) != d[3]) != d[5]) != d[6]) != c[31]) != c[30]) != c[29]) != c[28]) != c[26]) != c[25])
    case 7 => (((((((((d[0] != d[2]) != d[4]) != d[5]) != d[7]) != c[31]) != c[29]) != c[27]) != c[26]) != c[24])
    case 8 => ((((((((d[3] != d[4]) != d[6]) != d[7]) != c[28]) != c[27]) != c[25]) != c[24]) != c[0])
    case 9 => ((((((((d[2] != d[3]) != d[5]) != d[6]) != c[29]) != c[28]) != c[26]) != c[25]) != c[1])
    case 10 => ((((((((d[2] != d[4]) != d[5]) != d[7]) != c[29]) != c[27]) != c[26]) != c[24]) != c[2])
    case 11 => ((((((((d[3] != d[4]) != d[6]) != d[7]) != c[28]) != c[27]) != c[25]) != c[24]) != c[3])
    case 12 => ((((((((((((d[1] != d[2]) != d[3]) != d[5]) != d[6]) != d[7]) != c[30]) != c[29]) != c[28]) != c[26]) != c[25]) != c[24]) != c[4])
    case 13 => ((((((((((((d[0] != d[1]) != d[2]) != d[4]) != d[5]) != d[6]) != c[31]) != c[30]) != c[29]) != c[27]) != c[26]) != c[25]) != c[5])
    case 14 => ((((((((((d[0] != d[1]) != d[3]) != d[4]) != d[5]) != c[31]) != c[30]) != c[28]) != c[27]) != c[26]) != c[6])
    case 15 => ((((((((d[0] != d[2]) != d[3]) != d[4]) != c[31]) != c[29]) != c[28]) != c[27]) != c[7])
    case 16 => ((((((d[2] != d[3]) != d[7]) != c[29]) != c[28]) != c[24]) != c[8])
    case 17 => ((((((d[1] != d[2]) != d[6]) != c[30]) != c[29]) != c[25]) != c[9])
    case 18 => ((((((d[0] != d[1]) != d[5]) != c[31]) != c[30]) != c[26]) != c[10])
    case 19 => ((((d[0] != d[4]) != c[31]) != c[27]) != c[11])
    case 20 => ((d[3] != c[28]) != c[12])
    case 21 => ((d[2] != c[29]) != c[13])
    case 22 => ((d[7] != c[24]) != c[14])
    case 23 => ((((((d[1] != d[6]) != d[7]) != c[30]) != c[25]) != c[24]) != c[15])
    case 24 => ((((((d[0] != d[5]) != d[6]) != c[31]) != c[26]) != c[25]) != c[16])
    case 25 => ((((d[4] != d[5]) != c[27]) != c[26]) != c[17])
    case 26 => ((((((((d[1] != d[3]) != d[4]) != d[7]) != c[30]) != c[28]) != c[27]) != c[24]) != c[18])
    case 27 => ((((((((d[0] != d[2]) != d[3]) != d[6]) != c[31]) != c[29]) != c[28]) != c[25]) != c[19])
    case 28 => ((((((d[1] != d[2]) != d[5]) != c[30]) != c[29]) != c[26]) != c[20])
    case 29 => ((((((d[0] != d[1]) != d[4]) != c[31]) != c[30]) != c[27]) != c[21])
    case 30 => ((((d[0] != d[3]) != c[31]) != c[28]) != c[22])
    case _ => ((d[2] != c[23]) != c[29])
  }

  /** The sum modulo two of the first n bits of v that m selects. */
  ghost function Sel(m: Byte, v: Byte, n: nat): bool
    requires n <= 8
  {
    n > 0 && (Sel(m, v, n - 1) != (m[n - 1] && v[n - 1]))
  }

  ghost function Xor(v: Byte, w: Byte): Byte {
    [v[0] != w[0], v[1] != w[1], v[2] != w[2], v[3] != w[3],
     v[4] != w[4], v[5] != w[5], v[6] != w[6], v[7] != w[7]]
  }

  lemma {:induction false} SelOfXor(m: Byte, v: Byte, w: Byte, n: nat)
    requires n <= 8
    ensures Sel(m, Xor(v, w), n) == (Sel(m, v, n) != Sel(m, w, n))
  {
    if n > 0 {
      SelOfXor(m, v, w, n - 1);
    }
  }

  lemma {:induction false} SelByXor(m: Byte, l: Byte, v: Byte, n: nat)
    requires n <= 8
    ensures Sel(Xor(m, l), v, n) == (Sel(m, v, n) != Sel(l, v, n))
  {
    if n > 0 {
      SelByXor(m, l, v, n - 1);
    }
  }

  lemma SelEight(m: Byte, v: Byte)
    ensures Sel(m, v, 8)
         == ((((((((m[0] && v[0]) != (m[1] && v[1])) != (m[2] && v[2])) != (m[3] && v[3]))
              != (m[4] && v[4])) != (m[5] && v[5])) != (m[6] && v[6])) != (m[7] && v[7]))
  {
    assert Sel(m, v, 1) == (m[0] && v[0]);
    assert Sel(m, v, 3) == ((Sel(m, v, 1) != (m[1] && v[1])) != (m[2] && v[2]));
    assert Sel(m, v, 5) == ((Sel(m, v, 3) != (m[3] && v[3])) != (m[4] && v[4]));
    assert Sel(m, v, 7) == ((Sel(m, v, 5) != (m[5] && v[5])) != (m[6] && v[6]));
  }

  /** The eight register bits that meet the data bits, in the order they do. */
  ghost function Top(c: Word): Byte {
    [c[31], c[30], c[29], c[28], c[27], c[26], c[25], c[24]]
  }

  /** Which of the eight feedback bits reach bit i. */
  ghost function Reach(i: nat): Byte {
    [Tap(i - 7), Tap(i - 6), Tap(i - 5), Tap(i - 4), Tap(i - 3), Tap(i - 2), Tap(i - 1), Tap(i)]
  }

  /** The first two feedback bits come round again in the last two. */
  ghost function Again(i: nat): Byte {
    [Tap(i - 1), Tap(i), false, false, false, false, false, false]
  }

  /** Bit i takes over the bit eight below it. */
  ghost function Low(c: Word, i: nat): bool
    requires i < 32
  {
    i >= 8 && c[i - 8]
  }

  /** The equation of bit i as a selection from the data and from the top bits. */
  ghost predicate Row(c: Word, d: Byte, i: nat)
    requires i < 32
  {
    var m := Xor(Reach(i), Again(i));
    Equation(c, d, i) == (Low(c, i) != (Sel(m, d, 8) != Sel(m, Top(c), 8)))
  }

  // The equations are compared in groups of at most three, each small enough for one proof.
  lemma Rows0(c: Word, d: Byte, i: nat)
    requires 0 <= i < 1
    ensures Row(c, d, i)
  {
    SelEight(Xor(Reach(i), Again(i)), d);
    SelEight(Xor(Reach(i), Again(i)), Top(c));
  }

  lemma Rows1(c: Word, d: Byte, i: nat)
    requires 1 <= i < 2
    ensures Row(c, d, i)
  {
    SelEight(Xor(Reach(i), Again(i)), d);
    SelEight(Xor(Reach(i), Again(i)), Top(c));
  }

  lemma Rows2(c: Word, d: Byte, i: nat)
    requires 2 <= i < 3
    ensures Row(c, d, i)
  {
    SelEight(Xor(Reach(i), Again(i)), d);
    SelEight(Xor(Reach(i), Again(i)), Top(c));
  }

  lemma Rows3(c: Word, d: Byte, i: nat)
    requires 3 <= i < 6
    ensures Row(c, d, i)
  {
    SelEight(Xor(Reach(i), Again(i)), d);
    SelEight(Xor(Reach(i), Again(i)), Top(c));
  }

  lemma Rows6(c: Word, d: Byte, i: nat)
    requires 6 <= i < 9
    ensures Row(c, d, i)
  {
    SelEight(Xor(Reach(i), Again(i)), d);
    SelEight(Xor(Reach(i), Again(i)), Top(c));
  }

  lemma Rows9(c: Word, d: Byte, i: nat)
    requires 9 <= i < 12
    ensures Row(c, d, i)
  {
    SelEight(Xor(Reach(i), Again(i)), d);
    SelEight(Xor(Reach(i), Again(i)), Top(c));
  }

  lemma Rows12(c: Word, d: Byte, i: nat)
    requires 12 <= i < 15
    ensures Row(c, d, i)
  {
    SelEight(Xor(Reach(i), Again(i)), d);
    SelEight(Xor(Reach(i), Again(i)), Top(c));
  }

  lemma Rows15(c: Word, d: Byte, i: nat)
    requires 15 <= i < 18
    ensures Row(c, d, i)
  {
    SelEight(Xor(Reach(i), Again(i)), d);
    SelEight(Xor(Reach(i), Again(i)), Top(c));
  }

  lemma Rows18(c: Word, d: Byte, i: nat)
    requires 18 <= i < 21
    ensures Row(c, d, i)
  {
    SelEight(Xor(Reach(i), Again(i)), d);
    SelEight(Xor(Reach(i), Again(i)), Top(c));
  }

  lemma Rows21(c: Word, d: Byte, i: nat)
    requires 21 <= i < 24
    ensures Row(c, d, i)
  {
    SelEight(Xor(Reach(i), Again(i)), d);
    SelEight(Xor(Reach(i), Again(i)), Top(c));
  }

  lemma Rows24(c: Word, d: Byte, i: nat)
    requires 24 <= i < 27
    ensures Row(c, d, i)
  {
    SelEight(Xor(Reach(i), Again(i)), d);
    SelEight(Xor(Reach(i), Again(i)), Top(c));
  }

  lemma Rows27(c: Word, d: Byte, i: nat)
    requires 27 <= i < 30
    ensures Row(c, d, i)
  {
    SelEight(Xor(Reach(i), Again(i)), d);
    SelEight(Xor(Reach(i), Again(i)), Top(c));
  }

  lemma Rows30(c: Word, d: Byte, i: nat)
    requires 30 <= i < 32
    ensures Row(c, d, i)
  {
    SelEight(Xor(Reach(i), Again(i)), d);
    SelEight(Xor(Reach(i), Again(i)), Top(c));
  }

  lemma EveryRow(c: Word, d: Byte, i: nat)
    requires i < 32
    ensures Row(c, d, i)
  {
    if i < 1 { Rows0(c, d, i); }
    else if i < 2 { Rows1(c, d, i); }
    else if i < 3 { Rows2(c, d, i); }
    else if i < 6 { Rows3(c, d, i); }
    else if i < 9 { Rows6(c, d, i); }
    else if i < 12 { Rows9(c, d, i); }
    else if i < 15 { Rows12(c, d, i); }
    else if i < 18 { Rows15(c, d, i); }
    else if i < 21 { Rows18(c, d, i); }
    else if i < 24 { Rows21(c, d, i); }
    else if i < 27 { Rows24(c, d, i); }
    else if i < 30 { Rows27(c, d, i); }
    else { Rows30(c, d, i); }
  }

  /** The feedback of data bit k. */
  ghost function Feedback(c: Word, d: Byte, k: nat): bool
    requires k < 8
  {
    ShiftBits(c, d, k)[31] != d[k]
  }

  /** What the feedback bits so far have left in bit i. */
  ghost function Left(c: Word, d: Byte, n: nat, i: int): bool
    requires n <= 8
  {
    n > 0 && (Left(c, d, n - 1, i - 1) != (Tap(i) && Feedback(c, d, n - 1)))
  }

  lemma {:induction false} ShiftedBit(c: Word, d: Byte, n: nat, i: nat)
    requires n <= 8 && i < 32
    ensures ShiftBits(c, d, n)[i] == ((i >= n && c[i - n]) != Left(c, d, n, i))
  {
    if n > 0 {
      if i > 0 {
        ShiftedBit(c, d, n - 1, i - 1);
      } else {
        LeftBelow(c, d, n - 1, -1);
      }
    }
  }

  lemma {:induction false} LeftBelow(c: Word, d: Byte, n: nat, i: int)
    requires n <= 8 && i < 0
    ensures !Left(c, d, n, i)
  {
    if n > 0 {
      LeftBelow(c, d, n - 1, i - 1);
    }
  }

  /** Top bit against data bit; the last two see the first two feedbacks as well. */
  lemma FeedbackBits(c: Word, d: Byte, k: nat)
    requires k < 8
    ensures Feedback(c, d, k)
         == ((c[31 - k] != d[k]) != (k >= 6 && Feedback(c, d, k - 6)))
  {
    ShiftedBit(c, d, k, 31);
    LeftAtTop(c, d, k);
  }

  lemma {:induction false} Untapped(c: Word, d: Byte, n: nat, i: int, m: nat)
    requires m <= n <= 8 && forall t | i - m < t <= i :: !Tap(t)
    ensures Left(c, d, n, i) == Left(c, d, n - m, i - m)
  {
    if m > 0 {
      assert !Tap(i);
      Untapped(c, d, n - 1, i - 1, m - 1);
    }
  }

  lemma LeftAtTop(c: Word, d: Byte, k: nat)
    requires k < 8
    ensures Left(c, d, k, 31) == (k >= 6 && Feedback(c, d, k - 6))
  {
    if k < 6 {
      Untapped(c, d, k, 31, if k < 5 then k else 5);
    } else {
      Untapped(c, d, k, 31, 5);
      Untapped(c, d, k - 6, 25, k - 6);
    }
  }

  ghost function Feedbacks(c: Word, d: Byte): Byte {
    seq(8, k requires 0 <= k < 8 => Feedback(c, d, k))
  }

  lemma ReachAt(i: nat, k: nat)
    requires k < 8
    ensures Reach(i)[k] == Tap(i - 7 + k)
  {
    if k == 0 || k == 1 || k == 2 || k == 3 || k == 4 || k == 5 || k == 6 {
    }
  }

  lemma {:induction false} LeftIsSelection(c: Word, d: Byte, i: nat, n: nat)
    requires n <= 8
    ensures Left(c, d, n, i - 8 + n) == Sel(Reach(i), Feedbacks(c, d), n)
  {
    if n > 0 {
      LeftIsSelection(c, d, i, n - 1);
      ReachAt(i, n - 1);
    }
  }

  lemma FeedbackAt(c: Word, d: Byte, k: nat)
    requires k < 8
    ensures var p := Xor(d, Top(c));
            p[k] == (c[31 - k] != d[k])
            && Xor(p, [false, false, false, false, false, false, p[0], p[1]])[k]
               == (p[k] != (k >= 6 && p[k - 6]))
  {
    if k == 0 || k == 1 || k == 2 || k == 3 || k == 4 || k == 5 || k == 6 {
    }
  }

  lemma FeedbacksSplit(c: Word, d: Byte)
    ensures var p := Xor(d, Top(c));
            Feedbacks(c, d) == Xor(p, [false, false, false, false, false, false, p[0], p[1]])
  {
    var p := Xor(d, Top(c));
    var x := Xor(p, [false, false, false, false, false, false, p[0], p[1]]);
    forall k: nat | k < 8
      ensures Feedbacks(c, d)[k] == x[k]
    {
      FeedbackBits(c, d, k);
      FeedbackAt(c, d, k);
      if k >= 6 {
        FeedbackBits(c, d, k - 6);
        FeedbackAt(c, d, k - 6);
      }
    }
  }

  /** Each equation gives the bit that eight shifts of the register leave. */
  lemma EquationIsEightShifts(c: Word, d: Byte, i: nat)
    requires i < 32
    ensures Equation(c, d, i) == ShiftBits(c, d, 8)[i]
  {
    var p, m := Xor(d, Top(c)), Xor(Reach(i), Again(i));
    var e: Byte := [false, false, false, false, false, false, p[0], p[1]];
    EveryRow(c, d, i);
    SelOfXor(m, d, Top(c), 8);
    SelByXor(Reach(i), Again(i), p, 8);
    ShiftedBit(c, d, 8, i);
    LeftIsSelection(c, d, i, 8);
    FeedbacksSplit(c, d);
    SelOfXor(Reach(i), p, e, 8);
    SelEight(Reach(i), e);
    SelEight(Again(i), p);
  }

  /** _cal_crc32. */
  method CalCrc32(crcResult: Word, data: Byte) returns (r: Word)
    ensures r == ShiftBits(crcResult, data, 8)
  {
    r := seq(32, i => false);
    var i := 0;
    while i < 32
      invariant 0 <= i <= 32
      invariant forall k | 0 <= k < i :: r[k] == ShiftBits(crcResult, data, 8)[k]
      invariant forall k | i <= k < 32 :: !r[k]
    {
      EquationIsEightShifts(crcResult, data, i);
      if Equation(crcResult, data, i) {
        r := r[i := true];
      }
      i := i + 1;
    }
    assert r == ShiftBits(crcResult, data, 8);
  }

  function Ones(): Word {
    seq(32, i => true)
  }

  function Complement(w: Word): Word {
    seq(32, i requires 0 <= i < 32 => !w[i])
  }

  function Reflect(w: Word): Word {
    seq(32, i requires 0 <= i < 32 => w[31 - i])
  }

  /** The polynomial with its bits in reverse, 0xEDB88320. */
  function ReflectedPoly(): Word {
    seq(32, i => Tap(31 - i))
  }

  function BitsOf(b: Byte): Bits {
    b
  }

  function Flatten(data: seq<Byte>): Bits {
    Spread(BitsOf, data)
  }

  lemma {:induction false} FlattenLength(data: seq<Byte>)
    ensures |Flatten(data)| == 8 * |data|
  {
    if data != [] {
      FlattenLength(data[1..]);
    }
  }

  /** CRC-32 as the standards define it: preset, bit by bit, complement. */
  function Crc(data: seq<Byte>): Word {
    Complement(Feed(Ones(), ReflectedPoly(), Flatten(data)))
  }

  /** The register run from its high end mirrors the one run from its low end. */
  lemma ShiftReflects(c: Word, d: bool)
    ensures Reflect(Shift(c, d)) == Step(Reflect(c), ReflectedPoly(), d)
  {
  }

  lemma {:induction false} ShiftBitsReflects(c: Word, d: Byte, k: nat)
    requires k <= 8
    ensures Reflect(ShiftBits(c, d, k)) == Feed(Reflect(c), ReflectedPoly(), d[..k])
  {
    if k > 0 {
      ShiftBitsReflects(c, d, k - 1);
      ShiftReflects(ShiftBits(c, d, k - 1), d[k - 1]);
      assert d[..k] == d[..k - 1] + [d[k - 1]];
      FeedConcat(Reflect(c), ReflectedPoly(), d[..k - 1], [d[k - 1]]);
      var s := Feed(Reflect(c), ReflectedPoly(), d[..k - 1]);
      assert [d[k - 1]][1..] == [];
      assert Feed(s, ReflectedPoly(), [d[k - 1]]) == Feed(Step(s, ReflectedPoly(), d[k - 1]), ReflectedPoly(), []);
    }
  }

  /** get_crc32 computes the CRC-32 of the standards. */
  method GetCrc32(data: seq<Byte>) returns (val: Word)
    ensures val == Crc(data)
  {
    var crcResult := Ones();
    var i := 0;
    assert Reflect(Ones()) == Ones();
    while i < |data|
      invariant 0 <= i <= |data|
      invariant Feed(Reflect(crcResult), ReflectedPoly(), Flatten(data[i..]))
             == Feed(Ones(), ReflectedPoly(), Flatten(data))
    {
      assert Flatten(data[i..]) == data[i] + Flatten(data[i + 1..]);
      FeedConcat(Reflect(crcResult), ReflectedPoly(), data[i], Flatten(data[i + 1..]));
      ShiftBitsReflects(crcResult, data[i], 8);
      assert data[i][..8] == data[i];
      crcResult := CalCrc32(crcResult, data[i]);
      i := i + 1;
    }
    val := MirrorBits(crcResult);
    val := Complement(val);
  }

  /** The last loop of get_crc32. */
  method MirrorBits(crcResult: Word) returns (val: Word)
    ensures val == Reflect(crcResult)
  {
    val := seq(32, k => false);
    var i := 0;
    while i < 32
      invariant 0 <= i <= 32
      invariant forall k | 32 - i <= k < 32 :: val[k] == crcResult[31 - k]
      invariant forall k | 0 <= k < 32 - i :: !val[k]
    {
      if crcResult[i] {
        val := val[31 - i := true];
      }
      i := i + 1;
    }
    assert val == Reflect(crcResult);
  }

  lemma {:induction false} FlattenInjective(a: seq<Byte>, b: seq<Byte>)
    requires |a| == |b| && a != b
    ensures Flatten(a) != Flatten(b)
  {
    assert a == [a[0]] + a[1..] && b == [b[0]] + b[1..];
    assert Flatten(a)[..8] == a[0] && Flatten(b)[..8] == b[0];
    if a[0] == b[0] {
      FlattenInjective(a[1..], b[1..]);
      assert Flatten(a)[8..] == Flatten(a[1..]) && Flatten(b)[8..] == Flatten(b[1..]);
    }
  }

  /** Strings of any length that differ within a window of four bytes have different CRCs. */
  lemma FourByteErrorsDetected(a: seq<Byte>, x: seq<Byte>, y: seq<Byte>, b: seq<Byte>)
    requires |x| == |y| <= 4 && x != y
    ensures Crc(a + x + b) != Crc(a + y + b)
  {
    SpreadConcat(BitsOf, a + x, b);
    SpreadConcat(BitsOf, a, x);
    SpreadConcat(BitsOf, a + y, b);
    SpreadConcat(BitsOf, a, y);
    FlattenInjective(x, y);
    FlattenLength(x);
    FlattenLength(y);
    BurstDetected(Ones(), ReflectedPoly(), Flatten(a), Flatten(x), Flatten(y), Flatten(b));
    var u := Feed(Ones(), ReflectedPoly(), Flatten(a + x + b));
    var v := Feed(Ones(), ReflectedPoly(), Flatten(a + y + b));
    Differ(u, v);
    var i :| 0 <= i < 32 && u[i] != v[i];
    assert Complement(u)[i] != Complement(v)[i];
  }
}

/** The table-driven CRC-8 of utils.c. */
module Crc8 {
  import opened Lfsr

  /** x^8 + x^2 + x + 1, its bits in reverse. */
  const POLY: bv8 := 0xE0

  /** crc8_tbl, sixteen entries to a case. */
  function Table(v: bv8): bv8 {
    var k := v & 15;
    match v >> 4
    case 0 =>
      (match k
        case 0 => 0x00 case 1 => 0x91 case 2 => 0xe3 case 3 => 0x72
        case 4 => 0x07 case 5 => 0x96 case 6 => 0xe4 case 7 => 0x75
        case 8 => 0x0e case 9 => 0x9f case 10 => 0xed case 11 => 0x7c
        case 12 => 0x09 case 13 => 0x98 case 14 => 0xea case _ => 0x7b)
    case 1 =>
      (match k
        case 0 => 0x1c case 1 => 0x8d case 2 => 0xff case 3 => 0x6e
        case 4 => 0x1b case 5 => 0x8a case 6 => 0xf8 case 7 => 0x69
        case 8 => 0x12 case 9 => 0x83 case 10 => 0xf1 case 11 => 0x60
        case 12 => 0x15 case 13 => 0x84 case 14 => 0xf6 case _ => 0x67)
    case 2 =>
      (match k
        case 0 => 0x38 case 1 => 0xa9 case 2 => 0xdb case 3 => 0x4a
        case 4 => 0x3f case 5 => 0xae case 6 => 0xdc case 7 => 0x4d
        case 8 => 0x36 case 9 => 0xa7 case 10 => 0xd5 case 11 => 0x44
        case 12 => 0x31 case 13 => 0xa0 case 14 => 0xd2 case _ => 0x43)
    case 3 =>
      (match k
        case 0 => 0x24 case 1 => 0xb5 case 2 => 0xc7 case 3 => 0x56
        case 4 => 0x23 case 5 => 0xb2 case 6 => 0xc0 case 7 => 0x51
        case 8 => 0x2a case 9 => 0xbb case 10 => 0xc9 case 11 => 0x58
        case 12 => 0x2d case 13 => 0xbc case 14 => 0xce case _ => 0x5f)
    case 4 =>
      (match k
        case 0 => 0x70 case 1 => 0xe1 case 2 => 0x93 case 3 => 0x02
        case 4 => 0x77 case 5 => 0xe6 case 6 => 0x94 case 7 => 0x05
        case 8 => 0x7e case 9 => 0xef case 10 => 0x9d case 11 => 0x0c
        case 12 => 0x79 case 13 => 0xe8 case 14 => 0x9a case _ => 0x0b)
    case 5 =>
      (match k
        case 0 => 0x6c case 1 => 0xfd case 2 => 0x8f case 3 => 0x1e
        case 4 => 0x6b case 5 => 0xfa case 6 => 0x88 case 7 => 0x19
        case 8 => 0x62 case 9 => 0xf3 case 10 => 0x81 case 11 => 0x10
        case 12 => 0x65 case 13 => 0xf4 case 14 => 0x86 case _ => 0x17)
    case 6 =>
      (match k
        case 0 => 0x48 case 1 => 0xd9 case 2 => 0xab case 3 => 0x3a
        case 4 => 0x4f case 5 => 0xde case 6 => 0xac case 7 => 0x3d
        case 8 => 0x46 case 9 => 0xd7 case 10 => 0xa5 case 11 => 0x34
        case 12 => 0x41 case 13 => 0xd0 case 14 => 0xa2 case _ => 0x33)
    case 7 =>
      (match k
        case 0 => 0x54 case 1 => 0xc5 case 2 => 0xb7 case 3 => 0x26
        case 4 => 0x53 case 5 => 0xc2 case 6 => 0xb0 case 7 => 0x21
        case 8 => 0x5a case 9 => 0xcb case 10 => 0xb9 case 11 => 0x28
        case 12 => 0x5d case 13 => 0xcc case 14 => 0xbe case _ => 0x2f)
    case 8 =>
      (match k
        case 0 => 0xe0 case 1 => 0x71 case 2 => 0x03 case 3 => 0x92
        case 4 => 0xe7 case 5 => 0x76 case 6 => 0x04 case 7 => 0x95
        case 8 => 0xee case 9 => 0x7f case 10 => 0x0d case 11 => 0x9c
        case 12 => 0xe9 case 13 => 0x78 case 14 => 0x0a case _ => 0x9b)
    case 9 =>
      (match k
        case 0 => 0xfc case 1 => 0x6d case 2 => 0x1f case 3 => 0x8e
        case 4 => 0xfb case 5 => 0x6a case 6 => 0x18 case 7 => 0x89
        case 8 => 0xf2 case 9 => 0x63 case 10 => 0x11 case 11 => 0x80
        case 12 => 0xf5 case 13 => 0x64 case 14 => 0x16 case _ => 0x87)
    case 10 =>
      (match k
        case 0 => 0xd8 case 1 => 0x49 case 2 => 0x3b case 3 => 0xaa
        case 4 => 0xdf case 5 => 0x4e case 6 => 0x3c case 7 => 0xad
        case 8 => 0xd6 case 9 => 0x47 case 10 => 0x35 case 11 => 0xa4
        case 12 => 0xd1 case 13 => 0x40 case 14 => 0x32 case _ => 0xa3)
    case 11 =>
      (match k
        case 0 => 0xc4 case 1 => 0x55 case 2 => 0x27 case 3 => 0xb6
        case 4 => 0xc3 case 5 => 0x52 case 6 => 0x20 case 7 => 0xb1
        case 8 => 0xca case 9 => 0x5b case 10 => 0x29 case 11 => 0xb8
        case 12 => 0xcd case 13 => 0x5c case 14 => 0x2e case _ => 0xbf)
    case 12 =>
      (match k
        case 0 => 0x90 case 1 => 0x01 case 2 => 0x73 case 3 => 0xe2
        case 4 => 0x97 case 5 => 0x06 case 6 => 0x74 case 7 => 0xe5
        case 8 => 0x9e case 9 => 0x0f case 10 => 0x7d case 11 => 0xec
        case 12 => 0x99 case 13 => 0x08 case 14 => 0x7a case _ => 0xeb)
    case 13 =>
      (match k
        case 0 => 0x8c case 1 => 0x1d case 2 => 0x6f case 3 => 0xfe
        case 4 => 0x8b case 5 => 0x1a case 6 => 0x68 case 7 => 0xf9
        case 8 => 0x82 case 9 => 0x13 case 10 => 0x61 case 11 => 0xf0
        case 12 => 0x85 case 13 => 0x14 case 14 => 0x66 case _ => 0xf7)
    case 14 =>
      (match k
        case 0 => 0xa8 case 1 => 0x39 case 2 => 0x4b case 3 => 0xda
        case 4 => 0xaf case 5 => 0x3e case 6 => 0x4c case 7 => 0xdd
        case 8 => 0xa6 case 9 => 0x37 case 10 => 0x45 case 11 => 0xd4
        case 12 => 0xa1 case 13 => 0x30 case 14 => 0x42 case _ => 0xd3)
    case _ =>
      (match k
        case 0 => 0xb4 case 1 => 0x25 case 2 => 0x57 case 3 => 0xc6
        case 4 => 0xb3 case 5 => 0x22 case 6 => 0x50 case 7 => 0xc1
        case 8 => 0xba case 9 => 0x2b case 10 => 0x59 case 11 => 0xc8
        case 12 => 0xbd case 13 => 0x2c case 14 => 0x5e case _ => 0xcf)
  }

  /** One zero bit through the register, lowest bit first. */
  function Down(v: bv8): bv8 {
    if v & 1 == 1 then (v >> 1) ^ POLY else v >> 1
  }

  /** An entry of the table is its index run down by eight bits. */
  lemma TableIsEightSteps(v: bv8)
    ensures Table(v) == Down(Down(Down(Down(Down(Down(Down(Down(v))))))))
  {
  }

  function Bits8(v: bv8): (b: Bits)
    ensures |b| == 8
  {
    [v & 1 == 1, v & 2 == 2, v & 4 == 4, v & 8 == 8, v & 16 == 16, v & 32 == 32, v & 64 == 64, v & 128 == 128]
  }

  lemma BitsInjective(v: bv8, w: bv8)
    requires Bits8(v) == Bits8(w)
    ensures v == w
  {
    var a, b := Bits8(v), Bits8(w);
    assert a[0] == b[0] && a[1] == b[1] && a[2] == b[2] && a[3] == b[3];
    assert a[4] == b[4] && a[5] == b[5] && a[6] == b[6] && a[7] == b[7];
  }

  /** One data bit through the register. */
  function StepByte(r: bv8, d: bool): bv8 {
    if (r & 1 == 1) != d then (r >> 1) ^ POLY else r >> 1
  }

  lemma StepByteBits(r: bv8, d: bool)
    ensures var s, f := StepByte(r, d), (r & 1 == 1) != d;
            && (s & 1 == 1) == (r & 2 == 2) && (s & 2 == 2) == (r & 4 == 4)
            && (s & 4 == 4) == (r & 8 == 8) && (s & 8 == 8) == (r & 16 == 16)
            && (s & 16 == 16) == (r & 32 == 32) && (s & 32 == 32) == ((r & 64 == 64) != f)
            && (s & 64 == 64) == ((r & 128 == 128) != f) && (s & 128 == 128) == f
  {
  }

  function PolyBits(): (b: Bits)
    ensures |b| == 8
  {
    [false, false, false, false, false, true, true, true]
  }

  lemma PolyBitsRight()
    ensures Bits8(POLY) == PolyBits()
  {
  }

  lemma StepOfBits(b: Bits, d: bool)
    requires |b| == 8
    ensures var f := b[0] != d;
            Step(b, PolyBits(), d) == [b[1], b[2], b[3], b[4], b[5], b[6] != f, b[7] != f, f]
  {
  }

  lemma StepByteIsStep(r: bv8, d: bool)
    ensures Bits8(StepByte(r, d)) == Step(Bits8(r), PolyBits(), d)
  {
    StepByteBits(r, d);
    StepOfBits(Bits8(r), d);
  }

  predicate Odd(v: bv8) {
    v & 1 == 1
  }

  function Halve(v: bv8): bv8 {
    v >> 1
  }

  /** Data added to the register meets it one bit a step. */
  lemma DownMeetsData(r: bv8, d: bv8)
    ensures Down(r ^ d) == StepByte(r, Odd(d)) ^ Halve(d)
  {
  }

  function StepBytes(r: bv8, b: Bits): bv8
    decreases |b|
  {
    if b == [] then r else StepBytes(StepByte(r, b[0]), b[1..])
  }

  lemma {:induction false} StepBytesIsFeed(r: bv8, b: Bits)
    ensures Bits8(StepBytes(r, b)) == Feed(Bits8(r), PolyBits(), b)
    decreases |b|
  {
    if b != [] {
      StepByteIsStep(r, b[0]);
      StepBytesIsFeed(StepByte(r, b[0]), b[1..]);
    }
  }

  function DataBits(data: seq<bv8>): Bits {
    Spread(Bits8, data)
  }

  /** Running down r + d is taking in the lowest n bits of d, the rest of d still added. */
  lemma {:induction false} DownMeetsBits(r: bv8, d: bv8, n: nat)
    ensures Iterate(Down, r ^ d, n) == StepBytes(r, LowestBits(d, n)) ^ Iterate(Halve, d, n)
    decreases n
  {
    if n > 0 {
      var r', d' := StepByte(r, Odd(d)), Halve(d);
      OneBitDown(r, d, n, r', d');
      DownMeetsBits(r', d', n - 1);
      NextLowest(r, d, n);
    }
  }

  lemma OneBitDown(r: bv8, d: bv8, n: nat, r': bv8, d': bv8)
    requires n > 0 && r' == StepByte(r, Odd(d)) && d' == Halve(d)
    ensures Iterate(Down, r ^ d, n) == Iterate(Down, r' ^ d', n - 1)
    ensures Iterate(Halve, d, n) == Iterate(Halve, d', n - 1)
  {
    DownMeetsData(r, d);
  }

  lemma NextLowest(r: bv8, d: bv8, n: nat)
    requires n > 0
    ensures StepBytes(r, LowestBits(d, n)) == StepBytes(StepByte(r, Odd(d)), LowestBits(Halve(d), n - 1))
  {
    assert LowestBits(d, n)[1..] == LowestBits(Halve(d), n - 1);
  }

  function LowestBits(d: bv8, n: nat): Bits {
    Unroll(Odd, Halve, d, n)
  }

  lemma AllBits(d: bv8)
    ensures LowestBits(d, 8) == Bits8(d) && Iterate(Halve, d, 8) == 0
  {
    UnrollFour(Odd, Halve, d, 4);
    UnrollFour(Odd, Halve, Halve(Halve(Halve(Halve(d)))), 0);
    IterateEight(Halve, d);
    SingleBits(d);
  }

  lemma SingleBits(d: bv8)
    ensures var x1 := Halve(d); var x2 := Halve(x1); var x3 := Halve(x2); var x4 := Halve(x3);
            var x5 := Halve(x4); var x6 := Halve(x5); var x7 := Halve(x6);
            && Bits8(d) == [Odd(d), Odd(x1), Odd(x2), Odd(x3), Odd(x4), Odd(x5), Odd(x6), Odd(x7)]
            && Halve(x7) == 0
  {
  }

  lemma XorNothing(r: bv8)
    ensures r ^ 0 == r
  {
  }

  /** A table lookup takes in a byte as eight steps would, lowest bit first. */
  lemma LookupIsEightSteps(r: bv8, d: bv8)
    ensures Table(r ^ d) == StepBytes(r, Bits8(d))
  {
    TableIsEightSteps(r ^ d);
    IterateEight(Down, r ^ d);
    DownMeetsBits(r, d, 8);
    AllBits(d);
    XorNothing(StepBytes(r, Bits8(d)));
  }

  function Lookup(r: bv8, d: bv8): bv8 {
    Table(r ^ d)
  }

  /** The register after these bytes. */
  function Crc(crc: bv8, data: seq<bv8>): bv8 {
    Through(Lookup, crc, data)
  }

  /** The table-driven register is the bit-serial one. */
  lemma {:induction false} CrcIsBitSerial(crc: bv8, data: seq<bv8>)
    ensures Bits8(Crc(crc, data)) == Feed(Bits8(crc), Bits8(POLY), DataBits(data))
    decreases |data|
  {
    PolyBitsRight();
    if data != [] {
      LookupFeeds(crc, data[0]);
      CrcIsBitSerial(Lookup(crc, data[0]), data[1..]);
      FeedConcat(Bits8(crc), PolyBits(), Bits8(data[0]), DataBits(data[1..]));
    }
  }

  lemma LookupFeeds(r: bv8, d: bv8)
    ensures Bits8(Lookup(r, d)) == Feed(Bits8(r), PolyBits(), Bits8(d))
  {
    LookupIsEightSteps(r, d);
    StepBytesIsFeed(r, Bits8(d));
  }

  /** calculate_crc8. */
  method CalculateCrc8(start: bv8, data: seq<bv8>) returns (crc: bv8)
    ensures crc == Crc(start, data)
  {
    crc := start;
    var i := 0;
    while i < |data|
      invariant 0 <= i <= |data|
      invariant Crc(crc, data[i..]) == Crc(start, data)
    {
      ThroughNext(Lookup, crc, data, i);
      crc := Lookup(crc, data[i]);
      i := i + 1;
    }
  }

  /** get_crc8. */
  method GetCrc8(data: seq<bv8>) returns (crc: bv8)
    ensures crc == Crc(0, data)
  {
    crc := CalculateCrc8(0, data);
  }

  /** chk_crc8: whether the register ends at zero. */
  method ChkCrc8(data: seq<bv8>) returns (r: int)
    ensures r == 0 || r == -1
    ensures r == 0 <==> Crc(0, data) == 0
    ensures |data| > 0 ==> (r == 0 <==> data[|data| - 1] == Crc(0, data[..|data| - 1]))
  {
    var crc := CalculateCrc8(0, data);
    if |data| > 0 {
      var k := |data| - 1;
      assert data == data[..k] + [data[k]];
      TrailerChecks(data[..k], data[k]);
    }
    if crc == 0 {
      return 0;
    } else {
      return -1;
    }
  }

  /** A message with one more byte checks exactly when that byte is the CRC of the message. */
  lemma TrailerChecks(m: seq<bv8>, c: bv8)
    ensures Crc(0, m + [c]) == 0 <==> c == Crc(0, m)
  {
    ThroughConcat(Lookup, 0, m, [c]);
    ThroughOne(Lookup, Crc(0, m), c);
    LookupZero(Crc(0, m), c);
  }

  lemma LookupZero(r: bv8, c: bv8)
    ensures Lookup(r, c) == 0 <==> r == c
  {
    OnlyZeroMapsToZero(r ^ c);
    XorZero(r, c);
  }

  lemma XorZero(r: bv8, c: bv8)
    ensures r ^ c == 0 <==> r == c
  {
  }

  lemma OnlyZeroMapsToZero(v: bv8)
    ensures Table(v) == 0 <==> v == 0
  {
  }

  /** Strings of any length that differ in one byte have different CRCs. */
  lemma OneByteErrorDetected(a: seq<bv8>, x: bv8, y: bv8, b: seq<bv8>)
    requires x != y
    ensures Crc(0, a + [x] + b) != Crc(0, a + [y] + b)
  {
    OneByteBits(a, x, b);
    OneByteBits(a, y, b);
    if Bits8(x) == Bits8(y) {
      BitsInjective(x, y);
    }
    PolyBitsRight();
    CrcIsBitSerial(0, a + [x] + b);
    CrcIsBitSerial(0, a + [y] + b);
    BurstDetected(Bits8(0), PolyBits(), DataBits(a), Bits8(x), Bits8(y), DataBits(b));
  }

  lemma OneByteBits(a: seq<bv8>, x: bv8, b: seq<bv8>)
    ensures DataBits(a + [x] + b) == DataBits(a) + Bits8(x) + DataBits(b)
  {
    SpreadConcat(Bits8, a + [x], b);
    SpreadConcat(Bits8, a, [x]);
    SpreadOne(Bits8, x);
  }
}

/** CRC-32 in words, with the reflected polynomial written out. */
module Crc32Words {
  import opened Lfsr
  import C = Crc32
  import B = Crc8

  const POLY: bv32 := 0xEDB88320

  function Octet0(w: bv32): (b: Bits)
    ensures |b| == 8
  {
    [w & 0x1 == 0x1, w & 0x2 == 0x2, w & 0x4 == 0x4, w & 0x8 == 0x8,
     w & 0x10 == 0x10, w & 0x20 == 0x20, w & 0x40 == 0x40, w & 0x80 == 0x80]
  }

  function Octet1(w: bv32): (b: Bits)
    ensures |b| == 8
  {
    [w & 0x100 == 0x100, w & 0x200 == 0x200, w & 0x400 == 0x400, w & 0x800 == 0x800,
     w & 0x1000 == 0x1000, w & 0x2000 == 0x2000, w & 0x4000 == 0x4000, w & 0x8000 == 0x8000]
  }

  function Octet2(w: bv32): (b: Bits)
    ensures |b| == 8
  {
    [w & 0x10000 == 0x10000, w & 0x20000 == 0x20000, w & 0x40000 == 0x40000, w & 0x80000 == 0x80000,
     w & 0x100000 == 0x100000, w & 0x200000 == 0x200000, w & 0x400000 == 0x400000, w & 0x800000 == 0x800000]
  }

  function Octet3(w: bv32): (b: Bits)
    ensures |b| == 8
  {
    [w & 0x1000000 == 0x1000000, w & 0x2000000 == 0x2000000, w & 0x4000000 == 0x4000000, w & 0x8000000 == 0x8000000,
     w & 0x10000000 == 0x10000000, w & 0x20000000 == 0x20000000, w & 0x40000000 == 0x40000000, w & 0x80000000 == 0x80000000]
  }

  /** The bits of a word, lowest first. */
  function Bits32(w: bv32): (b: Bits)
    ensures |b| == 32
  {
    Octet0(w) + Octet1(w) + Octet2(w) + Octet3(w)
  }

  function Down(v: bv32): bv32 {
    if v & 1 == 1 then (v >> 1) ^ POLY else v >> 1
  }

  /** One byte into the register, as in section 8 of RFC 1952. */
  function Take(r: bv32, b: bv8): bv32 {
    Iterate(Down, r ^ (b as bv32), 8)
  }

  /** Preset to ones, byte by byte, complemented. */
  function Crc(data: seq<bv8>): bv32 {
    Through(Take, 0xFFFF_FFFF, data) ^ 0xFFFF_FFFF
  }

  function StepWord(r: bv32, d: bool): bv32 {
    if (r & 1 == 1) != d then (r >> 1) ^ POLY else r >> 1
  }

  lemma StepOctet0(r: bv32, d: bool)
    ensures var s, f := StepWord(r, d), (r & 1 == 1) != d;
            && (s & 0x1 == 0x1) == (r & 0x2 == 0x2)
            && (s & 0x2 == 0x2) == (r & 0x4 == 0x4)
            && (s & 0x4 == 0x4) == (r & 0x8 == 0x8)
            && (s & 0x8 == 0x8) == (r & 0x10 == 0x10)
            && (s & 0x10 == 0x10) == (r & 0x20 == 0x20)
            && (s & 0x20 == 0x20) == ((r & 0x40 == 0x40) != f)
            && (s & 0x40 == 0x40) == (r & 0x80 == 0x80)
            && (s & 0x80 == 0x80) == (r & 0x100 == 0x100)
  {
  }

  lemma StepOctet1(r: bv32, d: bool)
    ensures var s, f := StepWord(r, d), (r & 1 == 1) != d;
            && (s & 0x100 == 0x100) == ((r & 0x200 == 0x200) != f)
            && (s & 0x200 == 0x200) == ((r & 0x400 == 0x400) != f)
            && (s & 0x400 == 0x400) == (r & 0x800 == 0x800)
            && (s & 0x800 == 0x800) == (r & 0x1000 == 0x1000)
            && (s & 0x1000 == 0x1000) == (r & 0x2000 == 0x2000)
            && (s & 0x2000 == 0x2000) == (r & 0x4000 == 0x4000)
            && (s & 0x4000 == 0x4000) == (r & 0x8000 == 0x8000)
            && (s & 0x8000 == 0x8000) == ((r & 0x10000 == 0x10000) != f)
  {
  }

  lemma StepOctet2(r: bv32, d: bool)
    ensures var s, f := StepWord(r, d), (r & 1 == 1) != d;
            && (s & 0x10000 == 0x10000) == (r & 0x20000 == 0x20000)
            && (s & 0x20000 == 0x20000) == (r & 0x40000 == 0x40000)
            && (s & 0x40000 == 0x40000) == (r & 0x80000 == 0x80000)
            && (s & 0x80000 == 0x80000) == ((r & 0x100000 == 0x100000) != f)
            && (s & 0x100000 == 0x100000) == ((r & 0x200000 == 0x200000) != f)
            && (s & 0x200000 == 0x200000) == ((r & 0x400000 == 0x400000) != f)
            && (s & 0x400000 == 0x400000) == (r & 0x800000 == 0x800000)
            && (s & 0x800000 == 0x800000) == ((r & 0x1000000 == 0x1000000) != f)
  {
  }

  lemma StepOctet3(r: bv32, d: bool)
    ensures var s, f := StepWord(r, d), (r & 1 == 1) != d;
            && (s & 0x1000000 == 0x1000000) == ((r & 0x2000000 == 0x2000000) != f)
            && (s & 0x2000000 == 0x2000000) == (r & 0x4000000 == 0x4000000)
            && (s & 0x4000000 == 0x4000000) == ((r & 0x8000000 == 0x8000000) != f)
            && (s & 0x8000000 == 0x8000000) == ((r & 0x10000000 == 0x10000000) != f)
            && (s & 0x10000000 == 0x10000000) == (r & 0x20000000 == 0x20000000)
            && (s & 0x20000000 == 0x20000000) == ((r & 0x40000000 == 0x40000000) != f)
            && (s & 0x40000000 == 0x40000000) == ((r & 0x80000000 == 0x80000000) != f)
            && (s & 0x80000000 == 0x80000000) == f
  {
  }

  /** The eight bits of each octet after a step, f being the feedback. */

  function After0(x: Bits, up: bool, f: bool): (y: Bits)
    requires |x| == 8
    ensures |y| == 8
  {
    [x[1], x[2], x[3], x[4], x[5], x[6] != f, x[7], up]
  }

  function After1(x: Bits, up: bool, f: bool): (y: Bits)
    requires |x| == 8
    ensures |y| == 8
  {
    [x[1] != f, x[2] != f, x[3], x[4], x[5], x[6], x[7], up != f]
  }

  function After2(x: Bits, up: bool, f: bool): (y: Bits)
    requires |x| == 8
    ensures |y| == 8
  {
    [x[1], x[2], x[3], x[4] != f, x[5] != f, x[6] != f, x[7], up != f]
  }

  function After3(x: Bits, up: bool, f: bool): (y: Bits)
    requires |x| == 8
    ensures |y| == 8
  {
    [x[1] != f, x[2], x[3] != f, x[4] != f, x[5], x[6] != f, x[7] != f, f]
  }

  lemma OctetAfter0(r: bv32, d: bool)
    ensures Octet0(StepWord(r, d)) == After0(Octet0(r), Octet1(r)[0], (r & 1 == 1) != d)
  {
    StepOctet0(r, d);
  }

  lemma SliceAfter0(b: Bits, d: bool)
    requires |b| == 32
    ensures Step(b, C.ReflectedPoly(), d)[0..8] == After0(b[0..8], b[8], b[0] != d)
  {
  }

  lemma OctetAfter1(r: bv32, d: bool)
    ensures Octet1(StepWord(r, d)) == After1(Octet1(r), Octet2(r)[0], (r & 1 == 1) != d)
  {
    StepOctet1(r, d);
  }

  lemma SliceAfter1(b: Bits, d: bool)
    requires |b| == 32
    ensures Step(b, C.ReflectedPoly(), d)[8..16] == After1(b[8..16], b[16], b[0] != d)
  {
  }

  lemma OctetAfter2(r: bv32, d: bool)
    ensures Octet2(StepWord(r, d)) == After2(Octet2(r), Octet3(r)[0], (r & 1 == 1) != d)
  {
    StepOctet2(r, d);
  }

  lemma SliceAfter2(b: Bits, d: bool)
    requires |b| == 32
    ensures Step(b, C.ReflectedPoly(), d)[16..24] == After2(b[16..24], b[24], b[0] != d)
  {
  }

  lemma OctetAfter3(r: bv32, d: bool)
    ensures Octet3(StepWord(r, d)) == After3(Octet3(r), false, (r & 1 == 1) != d)
  {
    StepOctet3(r, d);
  }

  lemma SliceAfter3(b: Bits, d: bool)
    requires |b| == 32
    ensures Step(b, C.ReflectedPoly(), d)[24..32] == After3(b[24..32], false, b[0] != d)
  {
  }

  /** The polynomial of the equations, bit by bit: 0xEDB88320. */
  lemma PolyBits()
    ensures C.ReflectedPoly()
         == [false, false, false, false, false, true, false, false,
            true, true, false, false, false, false, false, true,
            false, false, false, true, true, true, false, true,
            true, false, true, true, false, true, true, true]
  {
  }

  lemma PolyIs()
    ensures C.ReflectedPoly() == Bits32(0xEDB88320)
  {
    PolyBits();
  }

  lemma StepWordIsStep(r: bv32, d: bool)
    ensures Bits32(StepWord(r, d)) == Step(Bits32(r), C.ReflectedPoly(), d)
  {
    OctetAfter0(r, d);
    OctetAfter1(r, d);
    OctetAfter2(r, d);
    OctetAfter3(r, d);
    FourOctets(Octet0(r), Octet1(r), Octet2(r), Octet3(r), d);
  }

  lemma FourOctets(x0: Bits, x1: Bits, x2: Bits, x3: Bits, d: bool)
    requires |x0| == |x1| == |x2| == |x3| == 8
    ensures var f := x0[0] != d;
            After0(x0, x1[0], f) + After1(x1, x2[0], f) + After2(x2, x3[0], f) + After3(x3, false, f)
            == Step(x0 + x1 + x2 + x3, C.ReflectedPoly(), d)
  {
    var b := x0 + x1 + x2 + x3;
    assert b[0..8] == x0 && b[8..16] == x1 && b[16..24] == x2 && b[24..32] == x3;
    SliceAfter0(b, d);
    SliceAfter1(b, d);
    SliceAfter2(b, d);
    SliceAfter3(b, d);
    FourSlices(Step(b, C.ReflectedPoly(), d));
  }

  lemma FourSlices(s: Bits)
    requires |s| == 32
    ensures s[0..8] + s[8..16] + s[16..24] + s[24..32] == s
  {
  }

  function Falses(n: nat): (b: Bits)
    ensures |b| == n
  {
    seq(n, i => false)
  }

  lemma DownIsStep(v: bv32)
    ensures Down(v) == StepWord(v, false)
  {
  }

  lemma {:induction false} DownsAreSteps(v: bv32, n: nat)
    ensures Bits32(Iterate(Down, v, n)) == Feed(Bits32(v), C.ReflectedPoly(), Falses(n))
    decreases n
  {
    if n > 0 {
      DownIsStep(v);
      StepWordIsStep(v, false);
      DownsAreSteps(Down(v), n - 1);
      assert Falses(n)[1..] == Falses(n - 1);
    }
  }

  lemma XorOctets(r: bv32, b: bv8)
    ensures var x, o, t := r ^ (b as bv32), Octet0(r), B.Bits8(b);
            && Octet0(x) == [o[0] != t[0], o[1] != t[1], o[2] != t[2], o[3] != t[3],
                             o[4] != t[4], o[5] != t[5], o[6] != t[6], o[7] != t[7]]
            && Octet1(x) == Octet1(r) && Octet2(x) == Octet2(r) && Octet3(x) == Octet3(r)
  {
  }

  lemma ByteIsAdded(r: bv32, b: bv8)
    ensures Bits32(r ^ (b as bv32)) == Added(Bits32(r), B.Bits8(b))
  {
    XorOctets(r, b);
    AddToFirstOctet(Octet0(r), Octet1(r) + Octet2(r) + Octet3(r), B.Bits8(b));
    Group(Octet0(r), Octet1(r), Octet2(r), Octet3(r));
    Group(Octet0(r ^ (b as bv32)), Octet1(r), Octet2(r), Octet3(r));
  }

  lemma Group(x0: Bits, x1: Bits, x2: Bits, x3: Bits)
    ensures x0 + x1 + x2 + x3 == x0 + (x1 + x2 + x3)
  {
  }

  lemma AddToFirstOctet(o: Bits, rest: Bits, t: Bits)
    requires |o| == |t| == 8
    ensures Added(o + rest, t)
         == [o[0] != t[0], o[1] != t[1], o[2] != t[2], o[3] != t[3],
             o[4] != t[4], o[5] != t[5], o[6] != t[6], o[7] != t[7]] + rest
  {
  }

  lemma TakeFeeds(r: bv32, b: bv8)
    ensures Bits32(Take(r, b)) == Feed(Bits32(r), C.ReflectedPoly(), B.Bits8(b))
  {
    DownsAreSteps(r ^ (b as bv32), 8);
    ByteIsAdded(r, b);
    PendingBits(Bits32(r), B.Bits8(b), C.ReflectedPoly(), Falses(8));
    assert Flipped(B.Bits8(b), Falses(8)) == B.Bits8(b);
  }

  lemma {:induction false} ThroughFeeds(r: bv32, data: seq<bv8>)
    ensures Bits32(Through(Take, r, data)) == Feed(Bits32(r), C.ReflectedPoly(), B.DataBits(data))
    decreases |data|
  {
    if data != [] {
      TakeFeeds(r, data[0]);
      ThroughFeeds(Take(r, data[0]), data[1..]);
      FeedConcat(Bits32(r), C.ReflectedPoly(), B.Bits8(data[0]), B.DataBits(data[1..]));
    }
  }

  /** The bytes as the bits they are made of. */
  function BytesOf(data: seq<bv8>): (b: seq<C.Byte>)
    ensures |b| == |data|
  {
    seq(|data|, i requires 0 <= i < |data| => B.Bits8(data[i]))
  }

  lemma {:induction false} SameBits(data: seq<bv8>)
    ensures C.Flatten(BytesOf(data)) == B.DataBits(data)
  {
    if data != [] {
      SameBits(data[1..]);
      assert BytesOf(data)[0] == B.Bits8(data[0]) && BytesOf(data)[1..] == BytesOf(data[1..]);
    }
  }

  lemma AllOnes()
    ensures Bits32(0xFFFF_FFFF) == C.Ones()
  {
  }

  lemma ComplementIs(w: bv32)
    ensures Bits32(w ^ 0xFFFF_FFFF) == C.Complement(Bits32(w))
  {
    ComplementOctets(w);
    FourComplements(Octet0(w), Octet1(w), Octet2(w), Octet3(w));
  }

  function Not(x: Bits): (y: Bits)
    requires |x| == 8
    ensures |y| == 8
  {
    [!x[0], !x[1], !x[2], !x[3], !x[4], !x[5], !x[6], !x[7]]
  }

  lemma ComplementOctets(w: bv32)
    ensures Octet0(w ^ 0xFFFF_FFFF) == Not(Octet0(w)) && Octet1(w ^ 0xFFFF_FFFF) == Not(Octet1(w))
    ensures Octet2(w ^ 0xFFFF_FFFF) == Not(Octet2(w)) && Octet3(w ^ 0xFFFF_FFFF) == Not(Octet3(w))
  {
  }

  lemma FourComplements(x0: Bits, x1: Bits, x2: Bits, x3: Bits)
    requires |x0| == |x1| == |x2| == |x3| == 8
    ensures Not(x0) + Not(x1) + Not(x2) + Not(x3) == C.Complement(x0 + x1 + x2 + x3)
  {
    NotIsInverse(x0);
    NotIsInverse(x1);
    NotIsInverse(x2);
    NotIsInverse(x3);
    InverseConcat(x0 + x1 + x2, x3);
    InverseConcat(x0 + x1, x2);
    InverseConcat(x0, x1);
    assert C.Complement(x0 + x1 + x2 + x3) == Inverse(x0 + x1 + x2 + x3);
  }

  function Inverse(x: Bits): (y: Bits)
    ensures |y| == |x|
  {
    seq(|x|, i requires 0 <= i < |x| => !x[i])
  }

  lemma InverseConcat(x: Bits, y: Bits)
    ensures Inverse(x + y) == Inverse(x) + Inverse(y)
  {
  }

  lemma NotIsInverse(x: Bits)
    requires |x| == 8
    ensures Not(x) == Inverse(x)
  {
  }

  /** What get_crc32 computes is the CRC of RFC 1952, in words and with its constants. */
  lemma CrcInWords(data: seq<bv8>)
    ensures C.Crc(BytesOf(data)) == Bits32(Crc(data))
  {
    var r := Through(Take, 0xFFFF_FFFF, data);
    RegisterInWords(data, r);
    ComplementIs(r);
  }

  lemma RegisterInWords(data: seq<bv8>, r: bv32)
    requires r == Through(Take, 0xFFFF_FFFF, data)
    ensures C.Complement(Bits32(r)) == C.Crc(BytesOf(data))
  {
    SameBits(data);
    AllOnes();
    ThroughFeeds(0xFFFF_FFFF, data);
  }

  lemma TakeIs(r: bv32, b: bv8)
    ensures Take(r, b) == Down(Down(Down(Down(Down(Down(Down(Down(r ^ (b as bv32)))))))))
  {
    IterateEight(Down, r ^ (b as bv32));
  }

  lemma ThroughThree<R, T>(step: (R, T) -> R, r: R, a: T, b: T, c: T)
    ensures Through(step, r, [a, b, c]) == step(step(step(r, a), b), c)
  {
    assert [a, b, c][1..] == [b, c] && [b, c][1..] == [c] && [c][1..] == [];
    assert Through(step, step(r, a), [b, c]) == Through(step, step(step(r, a), b), [c]);
  }

  lemma CheckGroup0()
    ensures Through(Take, 0xFFFF_FFFF, [0x31, 0x32, 0x33]) == 0x77B7_9C2D
  {
    TakeIs(0xFFFF_FFFF, 0x31);
    TakeIs(0x7C23_1048, 0x32);
    TakeIs(0xB0AC_BB32, 0x33);
    ThroughThree(Take, 0xFFFF_FFFF, 0x31, 0x32, 0x33);
  }

  lemma CheckGroup1()
    ensures Through(Take, 0x77B7_9C2D, [0x34, 0x35, 0x36]) == 0xF68D_2C9E
  {
    TakeIs(0x77B7_9C2D, 0x34);
    TakeIs(0x641C_1F5C, 0x35);
    TakeIs(0x340A_C5E3, 0x36);
    ThroughThree(Take, 0x77B7_9C2D, 0x34, 0x35, 0x36);
  }

  lemma CheckGroup2()
    ensures Through(Take, 0xF68D_2C9E, [0x37, 0x38, 0x39]) == 0x340B_C6D9
  {
    TakeIs(0xF68D_2C9E, 0x37);
    TakeIs(0xAFFC_9660, 0x38);
    TakeIs(0x651F_2550, 0x39);
    ThroughThree(Take, 0xF68D_2C9E, 0x37, 0x38, 0x39);
  }

  /** The empty string, and the check value published for this CRC: that of the digits 1 to 9. */
  lemma CheckValue()
    ensures Crc([]) == 0
    ensures Crc([0x31, 0x32, 0x33] + [0x34, 0x35, 0x36] + [0x37, 0x38, 0x39]) == 0xCBF4_3926
  {
    var a: seq<bv8>, b: seq<bv8>, c: seq<bv8> := [0x31, 0x32, 0x33], [0x34, 0x35, 0x36], [0x37, 0x38, 0x39];
    CheckGroup0();
    CheckGroup1();
    CheckGroup2();
    ThroughConcat(Take, 0xFFFF_FFFF, a + b, c);
    ThroughConcat(Take, 0xFFFF_FFFF, a, b);
  }

  /** So the bits of that word are what get_crc32 gives for those bytes, and 32 zeros for none. */
  lemma CheckBits()
    ensures C.Crc([]) == seq(32, i => false)
    ensures C.Crc(BytesOf([0x31, 0x32, 0x33] + [0x34, 0x35, 0x36] + [0x37, 0x38, 0x39])) == Bits32(0xCBF4_3926)
  {
    CheckValue();
    CrcInWords([0x31, 0x32, 0x33] + [0x34, 0x35, 0x36] + [0x37, 0x38, 0x39]);
  }

  /** Presetting to ones is complementing the first 32 bits of the data. */
  lemma PresetComplementsFirstWord(data: seq<C.Byte>)
    requires |data| >= 4
    ensures C.Crc(data)
         == C.Complement(Feed(seq(32, i => false), C.ReflectedPoly(), Flipped(seq(32, i => true), C.Flatten(data))))
  {
    var zeros: Bits, ones: Bits := seq(32, i => false), seq(32, i => true);
    C.FlattenLength(data);
    PendingBits(zeros, ones, C.ReflectedPoly(), C.Flatten(data));
    assert Added(zeros, ones) == C.Ones();
  }

  /** The four bytes of a word, lowest first. */
  function FourBytes(w: C.Word): seq<C.Byte> {
    [w[0..8], w[8..16], w[16..24], w[24..32]]
  }

  lemma FlattenFourBytes(w: C.Word)
    ensures C.Flatten(FourBytes(w)) == w
  {
    var b := FourBytes(w);
    assert b == [b[0]] + [b[1]] + [b[2]] + [b[3]];
    SpreadConcat(C.BitsOf, [b[0]] + [b[1]] + [b[2]], [b[3]]);
    SpreadConcat(C.BitsOf, [b[0]] + [b[1]], [b[2]]);
    SpreadConcat(C.BitsOf, [b[0]], [b[1]]);
    SpreadOne(C.BitsOf, b[0]);
    SpreadOne(C.BitsOf, b[1]);
    SpreadOne(C.BitsOf, b[2]);
    SpreadOne(C.BitsOf, b[3]);
    FourSlices(w);
  }

  /** A message with the four bytes of its CRC behind it has one CRC, whatever the message. */
  lemma Residue(data: seq<C.Byte>)
    ensures C.Crc(data + FourBytes(C.Crc(data))) == Bits32(0x2144_DF1C)
  {
    var poly, bits := C.ReflectedPoly(), C.Flatten(data);
    var r := Feed(C.Ones(), poly, bits);
    var crc := C.Crc(data);
    SpreadConcat(C.BitsOf, data, FourBytes(crc));
    FlattenFourBytes(crc);
    FeedConcat(C.Ones(), poly, bits, crc);
    MeetsItsComplement(r);
    ResidueRegister();
    ComplementIs(0xDEBB_20E3);
  }

  /** A register fed its own complement ends where ones lead from zero. */
  lemma MeetsItsComplement(r: C.Word)
    ensures Feed(r, C.ReflectedPoly(), C.Complement(r)) == Feed(seq(32, i => false), C.ReflectedPoly(), seq(32, i => true))
  {
    var zeros: Bits, ones: Bits := seq(32, i => false), seq(32, i => true);
    PendingBits(zeros, r, C.ReflectedPoly(), C.Complement(r));
    assert Added(zeros, r) == r;
    assert Flipped(r, C.Complement(r)) == ones;
  }

  lemma ResidueRegister()
    ensures Feed(seq(32, i => false), C.ReflectedPoly(), seq(32, i => true)) == Bits32(0xDEBB_20E3)
  {
    var f: bv8 := 0xFF;
    ResidueWords();
    ThroughFeeds(0, [f, f, f, f]);
    OnesOfBytes();
    AllZeros();
  }

  lemma AllZeros()
    ensures Bits32(0) == seq(32, i => false)
  {
  }

  lemma OnesOfBytes()
    ensures B.DataBits([0xFF, 0xFF, 0xFF, 0xFF]) == seq(32, i => true)
  {
    var f: bv8 := 0xFF;
    assert [f, f, f, f] == [f] + [f] + [f] + [f];
    SpreadConcat(B.Bits8, [f] + [f] + [f], [f]);
    SpreadConcat(B.Bits8, [f] + [f], [f]);
    SpreadConcat(B.Bits8, [f], [f]);
    SpreadOne(B.Bits8, f);
  }

  lemma ResidueWords()
    ensures Through(Take, 0, [0xFF, 0xFF, 0xFF, 0xFF]) == 0xDEBB_20E3
  {
    var f: bv8 := 0xFF;
    assert [f, f, f, f] == [f, f, f] + [f];
    TakeIs(0, 0xFF);
    TakeIs(0x2D02_EF8D, 0xFF);
    TakeIs(0xBE26_12FF, 0xFF);
    TakeIs(0x00BE_2612, 0xFF);
    ThroughThree(Take, 0, f, f, f);
    ThroughOne(Take, 0x00BE_2612, f);
    ThroughConcat(Take, 0, [f, f, f], [f]);
  }
}
