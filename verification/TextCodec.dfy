/** The number, hex and address texts of utils.c. */
module TextCodec {
  import opened Arith

  const NUL := '\0'

  datatype Option<T> = None | Some(value: T)

  /** The text in a char buffer: what stands before the first NUL. */
  function CString(s: seq<char>): (t: string)
    ensures |t| <= |s|
  {
    if s == [] || s[0] == NUL then [] else [s[0]] + CString(s[1..])
  }

  /** A 32-bit int. */
  function Wrap(x: int): int {
    (x + 0x8000_0000) % 0x1_0000_0000 - 0x8000_0000
  }

  lemma WrapOfProduct(x: int, m: int, y: int)
    ensures Wrap(Wrap(x) * m + y) == Wrap(x * m + y)
  {
    var w := 0x1_0000_0000;
    var q := (x + 0x8000_0000) / w;
    assert Wrap(x) == x - w * q;
    Spread(x, w, q, m);
    var z: int := x * m + y + 0x8000_0000;
    ModAddMultiple(z, -(q * m), w);
  }

  lemma Spread(x: int, w: int, q: int, m: int)
    ensures (x - w * q) * m == x * m + w * (-(q * m))
  {
    assert (x - w * q) * m == x * m - (w * q) * m;
    assert (w * q) * m == w * (q * m);
  }

  /** atodec. */
  function AToDec(ch: char): (d: int)
    ensures -1 <= d <= 9
  {
    if '0' <= ch <= '9' then ch as int - '0' as int else -1
  }

  /** The ten digits, and no other characters. */
  lemma DecimalDigits(c: char)
    ensures forall d | 0 <= d < 10 :: AToDec("0123456789"[d]) == d && DigitChar(d) == "0123456789"[d]
    ensures AToDec(c) == -1 <==> c !in "0123456789"
  {
    var all := "0123456789";
    assert c in all <==> exists d | 0 <= d < 10 :: all[d] == c;
    if AToDec(c) >= 0 {
      assert all[AToDec(c)] == c;
    }
  }

  predicate AllDigits(t: string) {
    forall i | 0 <= i < |t| :: AToDec(t[i]) >= 0
  }

  /** The number a string of decimal digits spells. */
  function Value(t: string): nat {
    if t == [] then 0
    else
      var d := AToDec(t[|t| - 1]);
      Value(t[..|t| - 1]) * 10 + if d < 0 then 0 else d
  }

  function Unsigned(t: string): string {
    if t != [] && t[0] == '-' then t[1..] else t
  }

  /** The integer that is written. */
  function Signed(t: string): int {
    if t != [] && t[0] == '-' then 0 - Value(Unsigned(t)) else Value(t)
  }

  /** What strtodec takes for a number: an optional minus and at least one digit, nothing else. */
  predicate IsNumber(t: string) {
    Unsigned(t) != [] && AllDigits(Unsigned(t))
  }

  ghost predicate DigitsFrom(t: string, k: nat) {
    k < |t| && forall i | k <= i < |t| :: t[i] in "0123456789"
  }

  /** One or more of the ten digits, with or without a minus in front. */
  lemma WhatIsANumber(t: string)
    ensures IsNumber(t) <==> DigitsFrom(t, 0) || (t != [] && t[0] == '-' && DigitsFrom(t, 1))
  {
    forall i | 0 <= i < |t|
      ensures AToDec(t[i]) >= 0 <==> t[i] in "0123456789"
    {
      DecimalDigits(t[i]);
    }
    var u, k := Unsigned(t), if t != [] && t[0] == '-' then 1 else 0;
    assert forall i | 0 <= i < |u| :: u[i] == t[i + k];
    if IsNumber(t) {
      forall i | k <= i < |t|
        ensures t[i] in "0123456789"
      {
        assert AToDec(u[i - k]) >= 0;
      }
    }
  }

  /** The int it stores. */
  function Number(t: string): int {
    Wrap(Signed(t))
  }

  /** The number is the one written exactly when it fits in an int. */
  lemma NumberIsExactIff(t: string)
    ensures Number(t) == Signed(t) <==> -0x8000_0000 <= Signed(t) < 0x8000_0000
  {
  }

  lemma {:induction false} PrefixIsLess(t: string, k: nat)
    requires k <= |t|
    ensures Value(t[..k]) <= Value(t)
    decreases |t|
  {
    if k < |t| {
      var n := |t| - 1;
      PrefixIsLess(t[..n], k);
      assert t[..n][..k] == t[..k];
    } else {
      assert t[..k] == t;
    }
  }

  /** Digits count ten times as much for each place they stand further left. */
  lemma ValueOfOneMore(t: string, c: char)
    requires AToDec(c) >= 0
    ensures Value([]) == 0 && Value(t + [c]) == 10 * Value(t) + AToDec(c)
  {
    assert (t + [c])[..|t|] == t;
  }

  /** A wrapped number is the one int congruent to it modulo 2^32. */
  lemma WrapIsCongruent(x: int)
    ensures -0x8000_0000 <= Wrap(x) < 0x8000_0000 && (Wrap(x) - x) % 0x1_0000_0000 == 0
  {
  }

  /**
   * No sum that strtodec forms on the way leaves the int, so that nothing has to wrap,
   * exactly when the digits spell less than 2^31; then what is stored is what is written.
   */
  lemma NoOverflowIff(t: string)
    ensures var u := Unsigned(t);
            (forall k | 0 <= k <= |u| :: Value(u[..k]) < 0x8000_0000) <==> Value(u) < 0x8000_0000
    ensures Value(Unsigned(t)) < 0x8000_0000 ==> Number(t) == Signed(t)
  {
    var u := Unsigned(t);
    assert u[..|u|] == u;
    forall k | 0 <= k <= |u|
      ensures Value(u[..k]) <= Value(u)
    {
      PrefixIsLess(u, k);
    }
    NumberIsExactIff(t);
  }

  lemma {:induction false} CStringAt(s: seq<char>, i: nat)
    ensures i < |CString(s)| ==> CString(s)[i] == s[i] && s[i] != NUL
    ensures i == |CString(s)| < |s| ==> s[i] == NUL
  {
    if s != [] && s[0] != NUL && i > 0 {
      CStringAt(s[1..], i - 1);
    }
  }

  lemma NextDigit(u: string, k: nat, i: int)
    requires k < |u| && AllDigits(u[..k]) && i == AToDec(u[k]) && i >= 0
    ensures AllDigits(u[..k + 1])
    ensures Wrap(Wrap(Value(u[..k])) * 10 + i) == Wrap(Value(u[..k + 1]))
  {
    assert u[..k + 1][..k] == u[..k];
    WrapOfProduct(Value(u[..k]), 10, i);
    assert u[..k + 1] == u[..k] + [u[k]];
  }

  /** Where the loop of strtodec stands after k characters of the text. */
  ghost predicate Reading(s: seq<char>, u: string, k: nat) {
    && k <= |u| <= |s|
    && (k < |s| ==> (s[k] == NUL <==> k == |u|))
    && (k < |u| ==> u[k] == s[k])
  }

  lemma ReadsOn(s: seq<char>, k: nat)
    requires k <= |CString(s)|
    ensures Reading(s, CString(s), k)
  {
    CStringAt(s, k);
  }

  /** A reader of numbers comes to a stop inside the buffer: at a NUL or at something that is no digit. */
  predicate Ends(s: seq<char>) {
    NUL in s || !AllDigits(Unsigned(CString(s)))
  }

  predicate EndsUnsigned(s: seq<char>) {
    NUL in s || !AllDigits(CString(s))
  }

  /** The loop of strtodec: the last digit read, and the number so far. */
  method Digits(buf: array<char>, start: nat) returns (past: bool, bad: bool, i: int, dd: int)
    requires start <= buf.Length
    ensures past <==> !EndsUnsigned(buf[start..])
    ensures bad <==> !AllDigits(CString(buf[start..]))
    ensures !bad ==> (i < 0 <==> CString(buf[start..]) == []) && dd == Wrap(Value(CString(buf[start..])))
  {
    ghost var s, u, k := buf[start..], CString(buf[start..]), 0;
    var str := start;
    past, bad, i, dd := false, false, -1, 0;
    ReadsOn(s, 0);
    Terminated(s);
    while str < buf.Length && buf[str] != NUL
      invariant str == start + k && Reading(s, u, k)
      invariant (i < 0 <==> k == 0) && AllDigits(u[..k])
      invariant dd == Wrap(Value(u[..k]))
      decreases |u| - k
    {
      assert buf[str] == s[k];
      i := AToDec(buf[str]);
      str := str + 1;
      if i < 0 {
        assert AToDec(u[k]) < 0;
        return false, true, i, dd;
      }
      NextDigit(u, k, i);
      dd := Wrap(dd * 10 + i);
      k := k + 1;
      ReadsOn(s, k);
    }
    assert str < buf.Length ==> buf[str] == s[k];
    assert u[..k] == u;
    past := str == buf.Length;
  }

  /** strtodec on the text that starts at this position; nothing is answered if it reads past the buffer. */
  method StrToDec(buf: array<char>, start: nat, held: int) returns (ret: Option<int>, dec: int)
    requires start <= buf.Length
    ensures ret.Some? <==> Ends(buf[start..])
    ensures ret.Some? ==> ret.value == if IsNumber(CString(buf[start..])) then 0 else -1
    ensures ret.Some? ==>
              dec == if AllDigits(Unsigned(CString(buf[start..]))) then Number(CString(buf[start..])) else held
  {
    if start == buf.Length {
      return None, held;
    }
    var str, sign := start, 1;
    if buf[str] == '-' {
      str := str + 1;
      sign := -1;
    }
    SignRead(buf[start..]);
    assert sign == -1 ==> buf[str..] == buf[start..][1..];
    var past, bad, i, dd := Digits(buf, str);
    if past {
      return None, held;
    }
    if bad {
      return Some(-1), held;
    }
    WrapOfSign(Value(CString(buf[str..])), sign, dd);
    dec := Wrap(dd * sign);
    ret := Some(if i < 0 then -1 else 0);
  }

  lemma WrapOfSign(v: nat, sign: int, dd: int)
    requires dd == Wrap(v) && (sign == 1 || sign == -1)
    ensures Wrap(dd * sign) == Wrap(if sign == -1 then 0 - v else v)
  {
    if sign == -1 {
      WrapOfProduct(v, -1, 0);
    }
  }

  lemma SignRead(s: seq<char>)
    requires s != []
    ensures s[0] == '-' ==>
              && (Ends(s) <==> EndsUnsigned(s[1..]))
              && Unsigned(CString(s)) == CString(s[1..]) && Signed(CString(s)) == 0 - Value(CString(s[1..]))
    ensures s[0] != '-' ==>
              && (Ends(s) <==> EndsUnsigned(s))
              && Unsigned(CString(s)) == CString(s) && Signed(CString(s)) == Value(CString(s))
  {
    if s[0] == '-' {
      assert s == [s[0]] + s[1..];
      assert CString(s)[1..] == CString(s[1..]);
    }
  }

  lemma {:induction false} Terminated(s: seq<char>)
    ensures |CString(s)| < |s| <==> NUL in s
  {
    if s != [] && s[0] != NUL {
      Terminated(s[1..]);
      assert s == [s[0]] + s[1..];
    }
  }

  /** A number in decimal, as printf's %d writes it. */
  function Decimal(n: nat): (t: string)
    ensures t != []
  {
    if n < 10 then [DigitChar(n)] else Decimal(n / 10) + [DigitChar(n % 10)]
  }

  function DigitChar(d: nat): (c: char)
    requires d < 10
    ensures AToDec(c) == d
  {
    '0' + d as char
  }

  /** The digits that are written spell the number. */
  lemma {:induction false} DecimalValue(n: nat)
    ensures AllDigits(Decimal(n)) && Value(Decimal(n)) == n
  {
    if n < 10 {
      assert Decimal(n)[..0] == [];
    } else {
      DecimalValue(n / 10);
      assert Decimal(n)[..|Decimal(n)| - 1] == Decimal(n / 10);
    }
  }

  /** Nothing but zero starts with a zero. */
  lemma {:induction false} NoLeadingZero(n: nat)
    ensures Decimal(n)[0] == '0' <==> n == 0
    ensures n < 10 ==> |Decimal(n)| == 1
  {
    if n >= 10 {
      NoLeadingZero(n / 10);
    }
  }

  /** strtodec reads back what is written. */
  lemma NumberOfDecimal(n: nat)
    requires n < 0x8000_0000
    ensures IsNumber(Decimal(n)) && Number(Decimal(n)) == n
  {
    DecimalValue(n);
    StartsWithDigit(Decimal(n));
    NumberIsExactIff(Decimal(n));
  }

  lemma NumberOfNegative(n: nat)
    requires n <= 0x8000_0000
    ensures IsNumber(['-'] + Decimal(n)) && Number(['-'] + Decimal(n)) == 0 - n
  {
    DecimalValue(n);
    MinusFirst(Decimal(n));
    NumberIsExactIff(['-'] + Decimal(n));
  }

  lemma StartsWithDigit(t: string)
    requires t != [] && AllDigits(t)
    ensures Unsigned(t) == t && Signed(t) == Value(t)
  {
    assert AToDec(t[0]) >= 0;
  }

  lemma MinusFirst(t: string)
    ensures Unsigned(['-'] + t) == t && Signed(['-'] + t) == 0 - Value(t)
  {
    assert (['-'] + t)[1..] == t;
  }

  /** The first dot at or behind this position, or the end. */
  function FirstDot(s: seq<char>, from: nat): (d: nat)
    requires from <= |s|
    ensures from <= d <= |s|
    ensures d < |s| ==> s[d] == '.'
    ensures forall i | from <= i < d :: s[i] != '.'
    decreases |s| - from
  {
    if from == |s| || s[from] == '.' then from else FirstDot(s, from + 1)
  }

  /** Where field i starts, and where it ends. */
  function Start(s: seq<char>, i: nat): (p: nat)
    ensures p <= |s| + 1
  {
    if i == 0 then 0
    else
      var p := Start(s, i - 1);
      if p <= |s| then FirstDot(s, p) + 1 else p
  }

  /** The text of field i: up to its dot, the last one up to the end. */
  function Field(s: seq<char>, i: nat): string {
    var p := Start(s, i);
    if p > |s| then [] else CString(if i < 3 then s[p..FirstDot(s, p)] else s[p..])
  }

  /** The number from 0 to 255 that strtodec takes the text for, or -1. */
  function Octet(t: string): (n: int)
    ensures -1 <= n <= 255
  {
    if IsNumber(t) && 0 <= Number(t) <= 255 then Number(t) else -1
  }

  type Four = o: seq<int> | |o| == 4 witness [0, 0, 0, 0]

  function Octets(s: seq<char>): Four {
    [Octet(Field(s, 0)), Octet(Field(s, 1)), Octet(Field(s, 2)), Octet(Field(s, 3))]
  }

  /** Three dots, and the end of the text somewhere behind them. */
  ghost predicate HasFields(s: seq<char>) {
    Start(s, 3) <= |s| && NUL in s[Start(s, 3)..]
  }

  /** The address after these octets too, if they are all there. */
  function Parsed(o: seq<int>, before: int): Option<int> {
    if o == [] then Some(before)
    else if o[0] >= 0 then Parsed(o[1..], before * 256 + o[0])
    else None
  }

  /** What is left of the buffer: after a bad field with a dot behind it, the dot is gone. */
  function LeftBehind(s: seq<char>, o: Four, i: nat): seq<char>
    decreases |o| - i
  {
    if i >= 3 then s
    else if o[i] >= 0 then LeftBehind(s, o, i + 1)
    else if Start(s, i) <= |s| && FirstDot(s, Start(s, i)) < |s| then s[FirstDot(s, Start(s, i)) := NUL]
    else s
  }

  /** An address comes out exactly when every field is an octet, the first field on top. */
  lemma ParsedExactlyWhen(o: Four)
    ensures Parsed(o, 0)
         == if o[0] >= 0 && o[1] >= 0 && o[2] >= 0 && o[3] >= 0
            then Some(o[0] * 0x100_0000 + o[1] * 0x1_0000 + o[2] * 0x100 + o[3]) else None
  {
    Last(o[3..], (o[0] * 256 + o[1]) * 256 + o[2]);
    assert o[1..][1..] == o[2..] && o[2..][1..] == o[3..];
    assert Parsed(o[2..], o[0] * 256 + o[1])
        == if o[2] < 0 then None else Parsed(o[3..], (o[0] * 256 + o[1]) * 256 + o[2]);
  }

  lemma Last(o: seq<int>, before: int)
    requires |o| == 1
    ensures Parsed(o, before) == if o[0] < 0 then None else Some(before * 256 + o[0])
  {
    assert o[1..] == [];
  }

  /** The buffer is what it was exactly when no field with a dot behind it is at fault. */
  lemma RestoredExactlyWhen(s: seq<char>, o: Four)
    ensures LeftBehind(s, o, 0) == s <==> forall i | 0 <= i < 3 && Start(s, i + 1) <= |s| :: o[i] >= 0
  {
    RestoredFrom(s, o, 0);
  }

  /** After a bad field with a dot behind it, the first such, just that dot is gone. */
  lemma {:induction false} CutJustThere(s: seq<char>, o: Four, i: nat, k: nat)
    requires k <= i < 3 && Start(s, i + 1) <= |s| && o[i] < 0 && forall j | k <= j < i :: o[j] >= 0
    ensures Start(s, i) <= FirstDot(s, Start(s, i)) < |s|
    ensures LeftBehind(s, o, k) == s[FirstDot(s, Start(s, i)) := '\0']
    decreases i - k
  {
    if k < i {
      CutJustThere(s, o, i, k + 1);
    }
  }

  lemma {:induction false} RestoredFrom(s: seq<char>, o: Four, i: nat)
    requires i <= 3
    ensures LeftBehind(s, o, i) == s <==> forall j | i <= j < 3 && Start(s, j + 1) <= |s| :: o[j] >= 0
    decreases 3 - i
  {
    if i < 3 {
      RestoredFrom(s, o, i + 1);
      if Start(s, i + 1) <= |s| {
        LeftAt(s, o, i);
      } else {
        NothingBehind(s, i + 1);
      }
    }
  }

  lemma NothingBehind(s: seq<char>, i: nat)
    requires Start(s, i) > |s|
    ensures forall j | i <= j :: Start(s, j) > |s|
  {
    forall j | i <= j
      ensures Start(s, j) > |s|
    {
      StaysPast(s, i, j);
    }
  }

  lemma {:induction false} StaysPast(s: seq<char>, i: nat, j: nat)
    requires Start(s, i) > |s| && i <= j
    ensures Start(s, j) > |s|
    decreases j - i
  {
    if i < j {
      StaysPast(s, i, j - 1);
    }
  }

  lemma LeftAt(s: seq<char>, o: Four, i: nat)
    requires i < 3 && Start(s, i + 1) <= |s|
    ensures o[i] >= 0 ==> LeftBehind(s, o, i) == LeftBehind(s, o, i + 1)
    ensures o[i] < 0 ==> LeftBehind(s, o, i) != s
  {
    var d := FirstDot(s, Start(s, i));
    assert s[d] == '.';
    assert s[d := NUL][d] != s[d];
  }

  /**
   * From field i on, strtoip does not read past the buffer: it comes to a bad field with a
   * dot behind it, or to a last field that ends.
   */
  predicate StaysInside(s: seq<char>, o: Four, i: nat)
    decreases |o| - i
  {
    if i >= 3 then Start(s, 3) <= |s| && Ends(s[Start(s, 3)..])
    else Start(s, i + 1) <= |s| && (o[i] < 0 || StaysInside(s, o, i + 1))
  }

  /**
   * strtoip stays inside the buffer exactly when some field with a dot behind it is no
   * octet, or there are three dots and the last field ends inside the buffer.
   */
  lemma StaysInsideExactlyWhen(s: seq<char>, o: Four)
    ensures StaysInside(s, o, 0)
            <==> (|| (exists i | 0 <= i < 3 :: Start(s, i + 1) <= |s| && o[i] < 0)
                  || (Start(s, 3) <= |s| && Ends(s[Start(s, 3)..])))
  {
    StaysFrom(s, o, 0);
  }

  lemma {:induction false} StaysFrom(s: seq<char>, o: Four, i: nat)
    requires i <= 3
    ensures StaysInside(s, o, i)
            <==> ((exists j | i <= j < 3 :: Start(s, j + 1) <= |s| && o[j] < 0) || StaysInside(s, o, 3))
    decreases 3 - i
  {
    if i < 3 {
      StaysFrom(s, o, i + 1);
      if Start(s, i + 1) > |s| {
        NothingBehind(s, i + 1);
        assert Start(s, 3) > |s|;
      }
    }
  }

  /** Two good fields and no more dots: the search for the next dot runs over the end of the text and on. */
  lemma TwoFieldsRunOver()
    ensures !StaysInside("1.2\0", Octets("1.2\0"), 0)
  {
    var s := "1.2\0";
    FirstDotIs(s, 0, 1);
    assert Start(s, 0) == 0 && Start(s, 1) == 2;
    NoDots(s, 2);
    assert Start(s, 2) == 5;
    var f := Field(s, 0);
    assert f == CString(s[0..1]) && s[0..1] == ['1'] && ['1'][1..] == [];
    assert f == ['1'] == Decimal(1);
    NumberOfDecimal(1);
  }

  lemma {:induction false} NoDots(s: seq<char>, from: nat)
    requires from <= |s| && forall i | from <= i < |s| :: s[i] != '.'
    ensures FirstDot(s, from) == |s|
    decreases |s| - from
  {
    if from < |s| {
      NoDots(s, from + 1);
    }
  }

  /** A bad first field is refused long before that, with its dot left cut out. */
  lemma BadFieldStaysInside()
    ensures StaysInside("a.b\0", Octets("a.b\0"), 0)
    ensures LeftBehind("a.b\0", Octets("a.b\0"), 0) == "a\0b\0"
  {
    var s := "a.b\0";
    FirstDotIs(s, 0, 1);
    assert Start(s, 0) == 0 && Start(s, 1) == 2;
    var f := Field(s, 0);
    assert f == CString(s[0..1]) && s[0..1] == ['a'] && ['a'][1..] == [];
    assert Unsigned(f) == ['a'] && AToDec(Unsigned(f)[0]) < 0;
    assert s[1 := NUL] == "a\0b\0";
  }

  lemma {:induction false} CStringOfCut(s: seq<char>, k: nat)
    requires k < |s|
    ensures CString(s[k := NUL]) == CString(s[..k])
  {
    var c := s[k := NUL];
    if k > 0 && s[0] != NUL {
      assert c[1..] == s[1..][k - 1 := NUL];
      assert s[..k][1..] == s[1..][..k - 1];
      CStringOfCut(s[1..], k - 1);
    }
  }

  /** The field that ends at this dot is read with the dot cut out, and the dot put back if it is an octet. */
  method ReadField(str: array<char>, head: nat, tail: nat, held: int) returns (ok: bool, n: int)
    requires head <= tail < str.Length && str[tail] == '.'
    modifies str
    ensures ok <==> Octet(CString(old(str[head..tail]))) >= 0
    ensures ok ==> n == Octet(CString(old(str[head..tail])))
    ensures str[..] == if ok then old(str[..]) else old(str[..])[tail := NUL]
  {
    ghost var s, t := str[..], CString(str[head..tail]);
    str[tail] := NUL;
    CutText(s, head, tail);
    assert str[..] == s[tail := NUL] && str[head..] == str[..][head..];
    assert CString(str[head..]) == t;
    var ret;
    ret, n := StrToDec(str, head, held);
    if ret.value < 0 || n < 0 || n > 255 {
      return false, n;
    }
    str[tail] := '.';
    assert str[..] == s;
    ok := true;
  }

  /** The last field, up to the end of the text. */
  method ReadLast(str: array<char>, head: nat, held: int) returns (past: bool, ok: bool, n: int)
    requires head <= str.Length
    ensures past <==> !Ends(str[head..])
    ensures !past ==> (ok <==> Octet(CString(str[head..])) >= 0)
    ensures !past && ok ==> n == Octet(CString(str[head..]))
  {
    var ret;
    ret, n := StrToDec(str, head, held);
    past := ret.None?;
    ok := !past && ret.value >= 0 && 0 <= n <= 255;
  }

  lemma CutText(s: seq<char>, head: nat, tail: nat)
    requires head <= tail < |s|
    ensures NUL in s[tail := NUL][head..]
    ensures CString(s[tail := NUL][head..]) == CString(s[head..tail])
  {
    var c := s[tail := NUL][head..];
    assert c == s[head..][tail - head := NUL] && c[tail - head] == NUL;
    CStringOfCut(s[head..], tail - head);
    assert s[head..][..tail - head] == s[head..tail];
  }

  /** Where the search for the dot of field i stands. */
  ghost predicate Searching(s: seq<char>, i: nat, head: nat, tail: nat) {
    && head == Start(s, i) <= tail && head <= |s|
    && (i < 3 ==> tail <= FirstDot(s, head))
  }

  /**
   * strtoip; nothing is answered if it reads past the buffer. An octet is anything strtodec
   * takes for a number from 0 to 255. The address 0.0.0.0 is stored and yet answered with
   * an error.
   */
  method StrToIp(str: array<char>) returns (ret: Option<int>, ip: Option<int>)
    modifies str
    ensures ret.Some? <==> StaysInside(old(str[..]), Octets(old(str[..])), 0)
    ensures ret.Some? ==> ip == Parsed(Octets(old(str[..])), 0)
    ensures ret.Some? ==> ret.value == if ip.None? || ip.value == 0 then -1 else 0
    ensures str[..] == LeftBehind(old(str[..]), Octets(old(str[..])), 0)
  {
    ghost var s, o := str[..], Octets(str[..]);
    var n, value, head, tail := 0, 0, 0, 0;
    var i := 0;
    Begun(s, o);
    while i < 3
      invariant i <= 3 && str[..] == s
      invariant Searching(s, i, head, tail)
      invariant Parsed(o, 0) == Parsed(o[i..], value)
      invariant LeftBehind(s, o, 0) == LeftBehind(s, o, i)
      invariant StaysInside(s, o, 0) == StaysInside(s, o, i)
      decreases 3 - i, |s| - tail
    {
      if tail == str.Length {
        RunsOver(s, o, i, head, tail);
        return None, None;
      }
      if str[tail] == '.' {
        DotFound(s, i, head, tail);
        assert str[head..tail] == s[head..tail];
        var ok;
        ok, n := ReadField(str, head, tail, n);
        if !ok {
          Refused(s, o, i, value);
          return Some(-1), None;
        }
        ghost var was, at := value, i;
        i := i + 1;
        value := value * 256 + n;
        Taken(s, o, at, was, n, value);
        assert Parsed(o, 0) == Parsed(o[i..], value);
        head := tail + 1;
      } else {
        NotYet(s, i, head, tail);
      }
      tail := tail + 1;
    }
    var past, ok;
    assert str[head..] == s[head..];
    past, ok, n := ReadLast(str, head, n);
    if past {
      return None, None;
    }
    if !ok {
      Refused(s, o, 3, value);
      return Some(-1), None;
    }
    ghost var was := value;
    value := value * 256 + n;
    Taken(s, o, 3, was, n, value);
    ip := Some(value);
    ret := Some(if value == 0 then -1 else 0);
  }

  lemma RunsOver(s: seq<char>, o: Four, i: nat, head: nat, tail: nat)
    requires i < 3 && Searching(s, i, head, tail) && tail == |s|
    ensures !StaysInside(s, o, i) && LeftBehind(s, o, i) == s
  {
    NothingBehind(s, i + 1);
    RestoredFrom(s, o, i);
  }

  lemma NotYet(s: seq<char>, i: nat, head: nat, tail: nat)
    requires i < 3 && Searching(s, i, head, tail) && tail < |s| && s[tail] != '.'
    ensures Searching(s, i, head, tail + 1)
  {
  }

  lemma Begun(s: seq<char>, o: Four)
    ensures Searching(s, 0, 0, 0) && o[0..] == o
  {
  }

  lemma Taken(s: seq<char>, o: Four, i: nat, before: int, n: int, now: int)
    requires i < 4 && n == o[i] >= 0 && now == before * 256 + n
    requires i < 3 ==> Start(s, i + 1) <= |s|
    ensures Parsed(o[i..], before) == Parsed(o[i + 1..], now)
    ensures LeftBehind(s, o, i) == LeftBehind(s, o, i + 1)
    ensures StaysInside(s, o, i) == StaysInside(s, o, i + 1)
    ensures i == 3 ==> Parsed(o[i..], before) == Some(now)
  {
    assert o[i..][1..] == o[i + 1..];
  }

  lemma Refused(s: seq<char>, o: Four, i: nat, before: int)
    requires i < 4 && o[i] < 0
    ensures Parsed(o[i..], before) == None
    ensures i < 3 && Start(s, i + 1) <= |s| ==> StaysInside(s, o, i)
  {
  }

  lemma DotFound(s: seq<char>, i: nat, head: nat, tail: nat)
    requires i < 3 && Searching(s, i, head, tail) && tail < |s| && s[tail] == '.'
    ensures tail == FirstDot(s, head) && Octets(s)[i] == Octet(CString(s[head..tail]))
    ensures Start(s, i + 1) == tail + 1 <= |s|
    ensures Searching(s, i + 1, tail + 1, tail + 1)
  {
    assert Octets(s)[i] == Octet(Field(s, i));
  }

  /** What sprintf of "%d.%d.%d.%d" writes for an address. */
  function IpText(ip: nat): string
    requires ip < 0x1_0000_0000
  {
    Quad(Decimal(ip / 0x100_0000), Decimal(ip / 0x1_0000 % 256), Decimal(ip / 0x100 % 256), Decimal(ip % 256))
  }

  function Quad(a: string, b: string, c: string, d: string): string {
    a + ['.'] + b + ['.'] + c + ['.'] + d
  }

  /** A buffer that a text is printed into. */
  function Printed(s: seq<char>, t: string): (r: seq<char>)
    requires |t| < |s|
    ensures |r| == |s|
  {
    t + [NUL] + s[|t| + 1..]
  }

  /** What sprintf does with the characters. */
  method Print(str: array<char>, t: string)
    requires |t| < str.Length
    modifies str
    ensures str[..] == Printed(old(str[..]), t)
  {
    ghost var s := str[..];
    for i := 0 to |t|
      invariant forall j | 0 <= j < i :: str[j] == t[j]
      invariant forall j | i <= j < str.Length :: str[j] == s[j]
    {
      str[i] := t[i];
    }
    str[|t|] := NUL;
    assert str[..] == Printed(s, t);
  }

  /** iptostr. */
  method IpToStr(ip: nat, str: array<char>)
    requires ip < 0x1_0000_0000 && |IpText(ip)| < str.Length
    modifies str
    ensures str[..] == Printed(old(str[..]), IpText(ip))
  {
    Print(str, IpText(ip));
  }

  ghost predicate Plain(t: string) {
    forall i | 0 <= i < |t| :: t[i] != '.' && t[i] != NUL
  }

  lemma DigitsArePlain(t: string)
    requires AllDigits(t)
    ensures Plain(t)
  {
    forall i | 0 <= i < |t|
      ensures t[i] != '.' && t[i] != NUL
    {
      assert AToDec(t[i]) >= 0;
    }
  }

  lemma {:induction false} PlainCString(t: string)
    requires Plain(t)
    ensures CString(t) == t
  {
    if t != [] {
      PlainCString(t[1..]);
    }
  }

  lemma {:induction false} PlainUpToNul(t: string, rest: seq<char>)
    requires Plain(t)
    ensures CString(t + [NUL] + rest) == t
  {
    var s := t + [NUL] + rest;
    if t != [] {
      assert s[1..] == t[1..] + [NUL] + rest;
      PlainUpToNul(t[1..], rest);
    }
  }

  lemma {:induction false} FirstDotIs(s: seq<char>, from: nat, to: nat)
    requires from <= to < |s| && s[to] == '.'
    requires forall i | from <= i < to :: s[i] != '.'
    ensures FirstDot(s, from) == to
    decreases |s| - from
  {
    if from < to {
      FirstDotIs(s, from + 1, to);
    }
  }

  /** A field between its start and its dot. */
  lemma FieldBetween(s: seq<char>, i: nat, before: seq<char>, t: string, behind: seq<char>)
    requires s == before + t + ['.'] + behind && Plain(t)
    requires i < 3 && Start(s, i) == |before|
    ensures Field(s, i) == t && Start(s, i + 1) == |before + t + ['.']|
  {
    assert s[|before|..|before| + |t|] == t;
    forall j | |before| <= j < |before| + |t|
      ensures s[j] != '.'
    {
      assert s[j] == t[j - |before|];
    }
    FirstDotIs(s, |before|, |before| + |t|);
    PlainCString(t);
  }

  lemma QuadFields(a: string, b: string, c: string, d: string, rest: seq<char>)
    requires Plain(a) && Plain(b) && Plain(c) && Plain(d)
    ensures var s := Quad(a, b, c, d) + [NUL] + rest;
            && HasFields(s)
            && Field(s, 0) == a && Field(s, 1) == b && Field(s, 2) == c && Field(s, 3) == d
  {
    var s := Quad(a, b, c, d) + [NUL] + rest;
    var p1 := a + ['.'];
    var p2 := p1 + b + ['.'];
    var p3 := p2 + c + ['.'];
    var last := d + [NUL] + rest;
    QuadSplit(a, b, c, d, rest);
    FieldBetween(s, 0, [], a, b + ['.'] + (c + ['.'] + last));
    FieldBetween(s, 1, p1, b, c + ['.'] + last);
    FieldBetween(s, 2, p2, c, last);
    assert s[|p3|..] == last;
    assert last[|d|] == NUL;
    PlainUpToNul(d, rest);
  }

  lemma QuadSplit(a: string, b: string, c: string, d: string, rest: seq<char>)
    ensures var s := Quad(a, b, c, d) + [NUL] + rest;
            var p1 := a + ['.'];
            var p2 := p1 + b + ['.'];
            var p3 := p2 + c + ['.'];
            var last := d + [NUL] + rest;
            && s == p3 + last && s == p2 + c + ['.'] + last
            && s == p1 + b + ['.'] + (c + ['.'] + last)
            && s == [] + a + ['.'] + (b + ['.'] + (c + ['.'] + last))
            && [] + a + ['.'] == p1
  {
    var p1 := a + ['.'];
    var p2 := p1 + b + ['.'];
    var p3 := p2 + c + ['.'];
    var last := d + [NUL] + rest;
    assert Quad(a, b, c, d) + [NUL] + rest == p3 + last;
    Split(p2, c, last);
    Split(p1, b, c + ['.'] + last);
    Split([], a, b + ['.'] + (c + ['.'] + last));
    assert [] + a + ['.'] == p1;
  }

  lemma Split(p: seq<char>, t: string, q: seq<char>)
    ensures (p + t + ['.']) + q == p + (t + ['.'] + q)
  {
  }

  lemma OctetOfDecimal(n: nat)
    requires n < 256
    ensures Octet(Decimal(n)) == n && Plain(Decimal(n))
  {
    NumberOfDecimal(n);
    DecimalValue(n);
    DigitsArePlain(Decimal(n));
  }

  lemma FromOctets(s: seq<char>, o: Four, ip: int)
    requires HasFields(s) && o[0] >= 0 && o[1] >= 0 && o[2] >= 0 && o[3] >= 0
    requires ip == o[0] * 0x100_0000 + o[1] * 0x1_0000 + o[2] * 0x100 + o[3]
    ensures Parsed(o, 0) == Some(ip)
    ensures LeftBehind(s, o, 0) == s && StaysInside(s, o, 0)
  {
    ParsedExactlyWhen(o);
    RestoredExactlyWhen(s, o);
    StaysInsideExactlyWhen(s, o);
  }

  lemma QuadOctets(a: nat, b: nat, c: nat, d: nat, rest: seq<char>)
    requires a < 256 && b < 256 && c < 256 && d < 256
    ensures var s := Quad(Decimal(a), Decimal(b), Decimal(c), Decimal(d)) + [NUL] + rest;
            HasFields(s) && Octets(s) == [a, b, c, d]
  {
    OctetOfDecimal(a);
    OctetOfDecimal(b);
    OctetOfDecimal(c);
    OctetOfDecimal(d);
    QuadFields(Decimal(a), Decimal(b), Decimal(c), Decimal(d), rest);
  }

  lemma PrintedQuad(a: nat, b: nat, c: nat, d: nat, s: seq<char>, rest: seq<char>, ip: int)
    requires a < 256 && b < 256 && c < 256 && d < 256
    requires s == Quad(Decimal(a), Decimal(b), Decimal(c), Decimal(d)) + [NUL] + rest
    requires ip == a * 0x100_0000 + b * 0x1_0000 + c * 0x100 + d
    ensures HasFields(s)
    ensures Parsed(Octets(s), 0) == Some(ip)
    ensures LeftBehind(s, Octets(s), 0) == s && StaysInside(s, Octets(s), 0)
  {
    QuadOctets(a, b, c, d, rest);
    var o: Four := Octets(s);
    assert o[0] == a && o[1] == b && o[2] == c && o[3] == d;
    FromOctets(s, o, ip);
  }

  /**
   * strtoip on what iptostr wrote, whatever the buffer held before: the address comes back
   * and the buffer stays as it was printed.
   */
  lemma IpRoundTrip(ip: nat, buffer: seq<char>)
    requires ip < 0x1_0000_0000 && |IpText(ip)| < |buffer|
    ensures var s := Printed(buffer, IpText(ip));
            && StaysInside(s, Octets(s), 0)
            && Parsed(Octets(s), 0) == Some(ip)
            && LeftBehind(s, Octets(s), 0) == s
  {
    BytesOfAddress(ip);
    PrintedQuad(ip / 0x100_0000, ip / 0x1_0000 % 256, ip / 0x100 % 256, ip % 256,
                Printed(buffer, IpText(ip)), buffer[|IpText(ip)| + 1..], ip);
  }

  lemma BytesOfAddress(ip: nat)
    ensures ip / 0x100_0000 * 0x100_0000 + ip / 0x1_0000 % 256 * 0x1_0000 + ip / 0x100 % 256 * 0x100 + ip % 256 == ip
  {
    var x := ip / 0x100;
    var y := x / 0x100;
    assert y == ip / 0x1_0000;
    assert y / 0x100 == ip / 0x100_0000;
  }

  type Byte = b: int | 0 <= b < 256

  /** atohex. */
  function AToHex(ch: char): (h: int)
    ensures -1 <= h < 16
  {
    if '0' <= ch <= '9' then ch as int - '0' as int
    else if 'a' <= ch <= 'f' then ch as int - 'a' as int + 0xa
    else if 'A' <= ch <= 'F' then ch as int - 'A' as int + 0xa
    else -1
  }

  /** A lower-case hex digit, as printf's %x writes it. */
  function HexChar(h: nat): (c: char)
    requires h < 16
    ensures AToHex(c) == h
    ensures Lower(c) == c
  {
    if h < 10 then '0' + h as char else 'a' + (h - 10) as char
  }

  /** The hex digits in both cases, and no other characters; lower case is printed. */
  lemma HexDigits(c: char)
    ensures forall d | 0 <= d < 16 ::
              AToHex("0123456789abcdef"[d]) == AToHex("0123456789ABCDEF"[d]) == d && HexChar(d) == "0123456789abcdef"[d]
    ensures AToHex(c) == -1 <==> c !in "0123456789abcdef" && c !in "0123456789ABCDEF"
  {
    var low, up := "0123456789abcdef", "0123456789ABCDEF";
    if AToHex(c) >= 0 {
      assert low[AToHex(c)] == c || up[AToHex(c)] == c;
    }
  }

  function Lower(ch: char): char {
    if 'A' <= ch <= 'F' then 'a' + (ch - 'A') else ch
  }

  /** Two digits for each byte, as "%02x" writes it. */
  function HexText(bytes: seq<Byte>): (t: string)
    ensures |t| == 2 * |bytes|
  {
    if bytes == [] then [] else [HexChar(bytes[0] / 16), HexChar(bytes[0] % 16)] + HexText(bytes[1..])
  }

  /** mactostr. */
  method MacToStr(mac: seq<Byte>, str: array<char>)
    requires |mac| == 6 && str.Length > 12
    modifies str
    ensures str[..] == Printed(old(str[..]), HexText(mac))
  {
    Print(str, HexText(mac));
  }

  /** The character at this position of a string, its end being a NUL. */
  function At(str: string, i: nat): char
    requires i <= |str|
  {
    if i < |str| then str[i] else NUL
  }

  /** The byte that pair k spells, or -1 if it does not spell one. */
  function Pair(str: string, k: nat): (b: int)
    ensures -1 <= b < 256
  {
    if 2 * k + 1 < |str| && AToHex(str[2 * k]) >= 0 && AToHex(str[2 * k + 1]) >= 0
    then AToHex(str[2 * k]) * 16 + AToHex(str[2 * k + 1])
    else -1
  }

  /** tmp | hex, where the lower four bits of tmp are clear. */
  function WithNibble(tmp: nat, hex: nat): Byte
    requires tmp < 256 && tmp % 16 == 0 && hex < 16
  {
    tmp + hex
  }

  /** strtohexarray: pairs are stored up to the first bad one. The string is not read past its end. */
  method StrToHexArray(arr: array<Byte>, cnt: int, str: string) returns (ret: int)
    requires cnt <= arr.Length
    modifies arr
    ensures ret == 0 || ret == -1
    ensures ret == 0 <==>
            var n := if cnt < 0 then 0 else cnt;
            (forall k | 0 <= k < n :: Pair(str, k) >= 0) && (|str| == 2 * n || (|str| > 2 * n && str[2 * n] == NUL))
    ensures forall k | 0 <= k < cnt && (forall j | 0 <= j <= k :: Pair(str, j) >= 0) :: arr[k] == Pair(str, k)
    ensures forall k | 0 <= k < arr.Length
              && (k >= cnt || exists j | 0 <= j <= k :: Pair(str, j) < 0) :: arr[k] == old(arr[k])
  {
    var k := 0;
    while k < cnt
      invariant 0 <= k <= (if cnt < 0 then 0 else cnt) && 2 * k <= |str|
      invariant forall j | 0 <= j < k :: Pair(str, j) >= 0
      invariant forall j | 0 <= j < k :: arr[j] == Pair(str, j)
      invariant forall j | k <= j < arr.Length :: arr[j] == old(arr[j])
    {
      var hex := AToHex(At(str, 2 * k));
      if hex < 0 {
        assert Pair(str, k) < 0;
        return -1;
      }
      var tmp := hex * 16 % 256;
      hex := AToHex(At(str, 2 * k + 1));
      if hex < 0 {
        assert Pair(str, k) < 0;
        return -1;
      }
      arr[k] := WithNibble(tmp, hex);
      k := k + 1;
    }
    ret := if At(str, 2 * k) == NUL then 0 else -1;
  }

  /** Where the two digits of byte k stand. */
  lemma {:induction false} HexTextAt(bytes: seq<Byte>, k: nat)
    requires k < |bytes|
    ensures HexText(bytes)[2 * k] == HexChar(bytes[k] / 16)
    ensures HexText(bytes)[2 * k + 1] == HexChar(bytes[k] % 16)
  {
    if k > 0 {
      HexTextAt(bytes[1..], k - 1);
      var rest := HexText(bytes[1..]);
      assert HexText(bytes)[2 * k] == rest[2 * k - 2] && HexText(bytes)[2 * k + 1] == rest[2 * k - 1];
    }
  }

  /** Every byte comes back from the two digits printed for it. */
  lemma HexRoundTrip(bytes: seq<Byte>, k: nat)
    requires k < |bytes|
    ensures Pair(HexText(bytes), k) == bytes[k]
  {
    HexTextAt(bytes, k);
  }

  lemma PairBack(str: string, k: nat, b: Byte)
    requires Pair(str, k) == b
    ensures HexChar(b / 16) == Lower(str[2 * k]) && HexChar(b % 16) == Lower(str[2 * k + 1])
  {
    DigitBack(str[2 * k]);
    DigitBack(str[2 * k + 1]);
    assert b / 16 == AToHex(str[2 * k]) && b % 16 == AToHex(str[2 * k + 1]);
  }

  /** Printing what was read gives the string back, in lower case. */
  lemma TextOfPairs(str: string, bytes: seq<Byte>, i: nat)
    requires |str| == 2 * |bytes| && forall k | 0 <= k < |bytes| :: Pair(str, k) == bytes[k]
    requires i < |str|
    ensures HexText(bytes)[i] == Lower(str[i])
  {
    var k := i / 2;
    HexTextAt(bytes, k);
    PairBack(str, k, bytes[k]);
    assert i == 2 * k || i == 2 * k + 1;
  }

  lemma DigitBack(ch: char)
    ensures AToHex(ch) >= 0 ==> HexChar(AToHex(ch)) == Lower(ch)
  {
  }
}
