/**
 * The streamed CRC of wm_crypto_hard.c. The CRC engine is hardware: it runs a register
 * over the bytes, one step a byte. What that step is, is left open.
 */
module HwCrc {
  import opened Arith

  /** The lowest ch bits of x in reverse. */
  function Reflected(x: nat, ch: nat): (r: nat)
    ensures r < Pow2(ch)
    decreases ch
  {
    if ch == 0 then 0
    else
      if x % 2 == 1 then Pow2(ch - 1) + Reflected(x / 2, ch - 1) else Reflected(x / 2, ch - 1)
  }

  /** Seen from the other end, the top bit comes lowest. */
  lemma {:induction false} ReflectedFromTop(x: nat, ch: nat)
    requires ch > 0
    ensures Reflected(x, ch) == 2 * Reflected(x % Pow2(ch - 1), ch - 1) + x / Pow2(ch - 1) % 2
    decreases ch
  {
    if ch > 1 {
      var p := Pow2(ch - 2);
      ReflectedFromTop(x / 2, ch - 1);
      DivDiv(x, 2, p);
      ModOfMod(x, 2, p);
      DivOfMod(x, 2, p);
      assert Pow2(ch - 1) == 2 * p;
    }
  }

  /** Reversing twice keeps the bits that there is room for. */
  lemma {:induction false} ReflectedTwice(x: nat, ch: nat)
    ensures Reflected(Reflected(x, ch), ch) == x % Pow2(ch)
    decreases ch
  {
    if ch > 0 {
      var p, z := Pow2(ch - 1), Reflected(x / 2, ch - 1);
      ReflectedFromTop(Reflected(x, ch), ch);
      TopAndRest(Reflected(x, ch), p, x % 2, z);
      ReflectedTwice(x / 2, ch - 1);
      HalvesOfMod(x, p);
    }
  }

  lemma TopAndRest(y: nat, p: nat, b: nat, z: nat)
    requires p > 0 && z < p && b < 2 && y == (if b == 1 then p + z else z)
    ensures y % p == z && y / p % 2 == b
  {
    DivModUnique(y, p, b, z);
  }

  lemma HalvesOfMod(x: nat, p: nat)
    requires p > 0
    ensures 2 * (x / 2 % p) + x % 2 == x % (2 * p)
  {
    ModOfMod(x, 2, p);
    DivOfMod(x, 2, p);
  }

  /** Bit i of the reversal is bit ch - 1 - i of the number. */
  lemma {:induction false} ReflectedBit(x: nat, ch: nat, i: nat)
    requires i < ch
    ensures Reflected(x, ch) / Pow2(i) % 2 == x / Pow2(ch - 1 - i) % 2
    decreases ch
  {
    if i == ch - 1 {
      TopAndRest(Reflected(x, ch), Pow2(ch - 1), x % 2, Reflected(x / 2, ch - 1));
      DivModUnique(x, Pow2(0), x, 0);
    } else {
      BelowTop(Reflected(x, ch), Reflected(x / 2, ch - 1), ch - 1, i);
      ReflectedBit(x / 2, ch - 1, i);
      BitOfHalf(x, ch - 2 - i);
    }
  }

  lemma BelowTop(r: nat, z: nat, w: nat, m: nat)
    requires m < w && (r == z || r == Pow2(w) + z)
    ensures r / Pow2(m) % 2 == z / Pow2(m) % 2
  {
    if r != z {
      LowDigitBit(z, 1, w, m);
    }
  }

  lemma BitOfHalf(x: nat, k: nat)
    ensures x / Pow2(k + 1) % 2 == x / 2 / Pow2(k) % 2
  {
    assert Pow2(k + 1) == 2 * Pow2(k);
    DivDiv(x, 2, Pow2(k));
  }

  /** value | 1 << k, where that bit is not yet set. */
  function WithBit(value: nat, k: nat): nat
    requires value / Pow2(k) % 2 == 0
  {
    value + Pow2(k)
  }

  /** Reflect, for widths up to the size of a word. */
  method Reflect(word: nat, ch: nat) returns (value: nat)
    requires ch <= 32
    ensures value == Reflected(word, ch)
  {
    var ref := word;
    value := 0;
    ghost var q := 0;
    for i := 1 to ch + 1
      invariant Reflected(word, ch) == value + Reflected(ref, ch + 1 - i)
      invariant value == Pow2(ch + 1 - i) * q
    {
      OneRound(ref, value, ch - i, q);
      q := 2 * q + ref % 2;
      if ref % 2 == 1 {
        value := WithBit(value, ch - i);
      }
      ref := ref / 2;
    }
  }

  /** Below the bits already set the next one is clear, and setting it is what the reversal does. */
  lemma OneRound(ref: nat, value: nat, k: nat, q: nat)
    requires value == Pow2(k + 1) * q
    ensures value / Pow2(k) % 2 == 0
    ensures var next := if ref % 2 == 1 then value + Pow2(k) else value;
            && value + Reflected(ref, k + 1) == next + Reflected(ref / 2, k)
            && next == Pow2(k) * (2 * q + ref % 2)
  {
    var p := Pow2(k);
    assert Pow2(k + 1) == 2 * p;
    DoubledFactor(p, q);
    EvenQuotient(value, p, q);
  }

  lemma DoubledFactor(p: nat, q: nat)
    ensures 2 * p * q == p * (2 * q) && p * (2 * q) + p == p * (2 * q + 1)
  {
  }

  lemma EvenQuotient(value: nat, p: nat, q: nat)
    requires p > 0 && value == p * (2 * q)
    ensures value / p % 2 == 0
  {
    DivModUnique(value, p, 2 * q, 0);
  }

  const OUTPUT_REFLECT := 1

  /** The width of the register; types the driver does not know count as 16 bits wide. */
  function Width(crcType: nat): (ch: nat)
    ensures 0 < ch <= 32
  {
    match crcType
    case 0 => 8
    case 1 => 16
    case 2 => 16
    case 3 => 32
    case _ => 16
  }

  lemma Widths()
    ensures Width(0) == 8 && Width(1) == 16 && Width(2) == 16 && Width(3) == 32
    ensures forall t: nat | t > 3 :: Width(t) == 16
  {
  }

  /** One byte through the register. */
  type Round = (nat, bv8) -> nat

  /** What the engine does with a byte, for a type and a mode. */
  type Engine = (nat, nat) -> Round

  /** A register ch bits wide, run over the data. */
  function Shifted(round: Round, ch: nat, r: nat, data: seq<bv8>): (s: nat)
    requires r < Pow2(ch)
    ensures s < Pow2(ch)
    decreases |data|
  {
    if data == [] then r else Shifted(round, ch, round(r, data[0]) % Pow2(ch), data[1..])
  }

  lemma {:induction false} ShiftedConcat(round: Round, ch: nat, r: nat, a: seq<bv8>, b: seq<bv8>)
    requires r < Pow2(ch)
    ensures Shifted(round, ch, r, a + b) == Shifted(round, ch, Shifted(round, ch, r, a), b)
    decreases |a|
  {
    if a == [] {
      assert a + b == b;
    } else {
      assert (a + b)[0] == a[0] && (a + b)[1..] == a[1..] + b;
      ShiftedConcat(round, ch, round(r, a[0]) % Pow2(ch), a[1..], b);
    }
  }

  /** Between the state and the register, either way: in reverse if the output is reflected. */
  function Facing(ch: nat, reflect: bool, state: nat): (r: nat)
    ensures r < Pow2(ch)
  {
    if reflect then Reflected(state, ch) else state % Pow2(ch)
  }

  lemma FacingTwice(ch: nat, reflect: bool, r: nat)
    requires r < Pow2(ch)
    ensures Facing(ch, reflect, Facing(ch, reflect, r)) == r
  {
    ReflectedTwice(r, ch);
    SmallMod(r, Pow2(ch));
  }

  lemma SmallMod(x: nat, n: nat)
    requires x < n
    ensures x % n == x
  {
  }

  /** What one start of the engine gives: the key in, the data through, the result out. */
  function Start(round: Round, ch: nat, reflect: bool, key: nat, data: seq<bv8>): nat {
    var r := Shifted(round, ch, key % Pow2(ch), data);
    if reflect then Reflected(r, ch) else r
  }

  /** The state after a run over the data, with no limit on its length. */
  function Crc(round: Round, ch: nat, reflect: bool, state: nat, data: seq<bv8>): nat {
    Facing(ch, reflect, Shifted(round, ch, Facing(ch, reflect, state), data))
  }

  lemma StartIsCrc(round: Round, ch: nat, reflect: bool, state: nat, data: seq<bv8>)
    ensures Crc(round, ch, reflect, state, data)
         == Start(round, ch, reflect, if reflect then Reflected(state, ch) else state, data)
  {
    var key := if reflect then Reflected(state, ch) else state;
    if reflect {
      SmallMod(key, Pow2(ch));
    } else {
      SmallMod(Shifted(round, ch, state % Pow2(ch), data), Pow2(ch));
    }
  }

  /** As much of the data as the 16 bits of the length field tell the engine of. */
  function Told(data: seq<bv8>): seq<bv8> {
    data[..|data| % 0x1_0000]
  }

  /** psCrcContext_t. */
  class Context {
    var state: nat
    var crcType: nat
    var mode: nat

    /** tls_crypto_crc_init. */
    constructor (key: nat, crcType: nat, mode: nat)
      ensures state == key && this.crcType == crcType && this.mode == mode
    {
      this.state, this.crcType, this.mode := key, crcType, mode;
    }

    /** tls_crypto_crc_update. */
    method Update(engine: Engine, data: seq<bv8>)
      modifies this`state
      ensures var ch := if crcType == 0 then 8 else if crcType == 3 then 32 else 16;
              state == Crc(engine(crcType, mode), ch, mode % 2 == 1, old(state), data[..|data| % 0x1_0000])
    {
      var key := state;
      if mode % 2 == OUTPUT_REFLECT {
        var ch := 16;
        match crcType {
          case 0 => ch := 8;
          case 1 => ch := 16;
          case 2 => ch := 16;
          case 3 => ch := 32;
          case _ =>
        }
        key := Reflect(state, ch);
        assert ch == Width(crcType);
      }
      StartIsCrc(engine(crcType, mode), Width(crcType), mode % 2 == OUTPUT_REFLECT, state, Told(data));
      state := Start(engine(crcType, mode), Width(crcType), mode % 2 == OUTPUT_REFLECT, key, Told(data));
    }

    /** tls_crypto_crc_final. */
    method Final() returns (crc: nat)
      ensures crc == state
    {
      crc := state;
    }
  }

  /**
   * In the plain mode the state is the register; in the mode that reflects the output it is
   * the register in reverse, on the way in as on the way out. No data leave it as it is.
   */
  lemma CrcByMode(round: Round, ch: nat, state: nat, data: seq<bv8>)
    ensures Crc(round, ch, false, state, data) == Shifted(round, ch, state % Pow2(ch), data)
    ensures Crc(round, ch, true, state, data)
         == Reflected(Shifted(round, ch, Reflected(state, ch), data), ch)
    ensures Crc(round, ch, false, state, []) == Crc(round, ch, true, state, []) == state % Pow2(ch)
  {
    SmallMod(Shifted(round, ch, state % Pow2(ch), data), Pow2(ch));
    SmallMod(state % Pow2(ch), Pow2(ch));
    ReflectedTwice(state, ch);
  }

  /** A byte changes the register as the engine does, cut to its width. */
  lemma ShiftedByOne(round: Round, ch: nat, r: nat, b: bv8)
    requires r < Pow2(ch)
    ensures Shifted(round, ch, r, [b]) == round(r, b) % Pow2(ch)
  {
    assert [b][1..] == [];
  }

  /** One string after another leaves the state that both leave as one string. */
  lemma CrcConcat(round: Round, ch: nat, reflect: bool, state: nat, a: seq<bv8>, b: seq<bv8>)
    ensures Crc(round, ch, reflect, Crc(round, ch, reflect, state, a), b)
         == Crc(round, ch, reflect, state, a + b)
  {
    var r := Shifted(round, ch, Facing(ch, reflect, state), a);
    FacingTwice(ch, reflect, r);
    ShiftedConcat(round, ch, Facing(ch, reflect, state), a, b);
  }

  /** The state after one update for each chunk. */
  function Updates(round: Round, ch: nat, reflect: bool, state: nat, chunks: seq<seq<bv8>>): nat
    decreases |chunks|
  {
    if chunks == [] then state
    else Updates(round, ch, reflect, Crc(round, ch, reflect, state, Told(chunks[0])), chunks[1..])
  }

  function Joined(chunks: seq<seq<bv8>>): seq<bv8> {
    if chunks == [] then [] else chunks[0] + Joined(chunks[1..])
  }

  /**
   * However a message of any length is cut into chunks, each within the length field,
   * updating with them leaves the CRC of the whole.
   */
  lemma {:induction false} CrcInChunks(round: Round, ch: nat, reflect: bool, state: nat, chunks: seq<seq<bv8>>)
    requires |chunks| > 0 && forall i | 0 <= i < |chunks| :: |chunks[i]| < 0x1_0000
    ensures Updates(round, ch, reflect, state, chunks) == Crc(round, ch, reflect, state, Joined(chunks))
    decreases |chunks|
  {
    var first, rest := chunks[0], chunks[1..];
    ToldWhole(first);
    if rest == [] {
      assert first + Joined(rest) == first;
    } else {
      CrcInChunks(round, ch, reflect, Crc(round, ch, reflect, state, first), rest);
      CrcConcat(round, ch, reflect, state, first, Joined(rest));
    }
  }

  /** The length field tells of all the data exactly when there are fewer than 2^16 bytes. */
  lemma ToldWhole(data: seq<bv8>)
    ensures Told(data) == data <==> |data| < 0x1_0000
  {
  }
}
