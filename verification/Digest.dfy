/** SHA-1 and MD5 as block-buffered streams over the hardware compression function. */
module Digest {
  import opened Arith

  type byte = b: nat | b < 0x100
  type word = w: nat | w < 0x1_0000_0000

  const BLOCK: nat := 64
  const WORD_LIMIT: nat := 0x1_0000_0000
  const ERR_ARG_FAIL: int := -6

  datatype Algo = Sha1 | Md5 {
    function Init(): seq<word> {
      match this
      case Sha1 => [0x67452301, 0xefcdab89, 0x98badcfe, 0x10325476, 0xc3d2e1f0]
      case Md5 => [0x67452301, 0xefcdab89, 0x98badcfe, 0x10325476]
    }

    function Words(): nat {
      if Sha1? then 5 else 4
    }

    /** STORE32H for SHA-1, STORE32L for MD5. */
    function Store(w: word): (s: seq<byte>)
      ensures |s| == 4
    {
      if Sha1? then Reverse4(LittleEndian(w)) else LittleEndian(w)
    }

    /** The two length words in the order the final block holds them. */
    function StoreLength(hi: word, lo: word): (s: seq<byte>)
      ensures |s| == 8
    {
      if Sha1? then Store(hi) + Store(lo) else Store(lo) + Store(hi)
    }

    function StoreAll(state: seq<word>): (s: seq<byte>)
      ensures |s| == 4 * |state|
    {
      if state == [] then [] else Store(state[0]) + StoreAll(state[1..])
    }
  }

  function LittleEndian(w: word): (s: seq<byte>)
    ensures |s| == 4
  {
    [w % 0x100, w / 0x100 % 0x100, w / 0x1_0000 % 0x100, w / 0x100_0000]
  }

  function Reverse4(s: seq<byte>): (r: seq<byte>)
    requires |s| == 4
    ensures |r| == 4
  {
    [s[3], s[2], s[1], s[0]]
  }

  /** One block through the compression unit; the state has as many words before and after. */
  type Compress = (seq<word>, seq<byte>) -> seq<word>

  /** The chaining value after the whole blocks of m. */
  function Fold(f: Compress, state: seq<word>, m: seq<byte>): seq<word>
    requires |m| % BLOCK == 0
    decreases |m|
  {
    if m == [] then state else Fold(f, f(state, m[..BLOCK]), m[BLOCK..])
  }

  /** Zero bytes between the marker and the length field: the fewest that fill a block. */
  function Zeros(n: nat): (z: nat)
    ensures z < BLOCK && (n + 1 + z) % BLOCK == 56
  {
    if n % BLOCK < 56 then 55 - n % BLOCK else 119 - n % BLOCK
  }

  function BitCount(n: nat): nat {
    8 * n % (WORD_LIMIT * WORD_LIMIT)
  }

  function HighWord(bits: nat): word {
    bits / WORD_LIMIT % WORD_LIMIT
  }

  function LowWord(bits: nat): word {
    bits % WORD_LIMIT
  }

  function LengthField(algo: Algo, n: nat): (s: seq<byte>)
    ensures |s| == 8
  {
    algo.StoreLength(HighWord(BitCount(n)), LowWord(BitCount(n)))
  }

  function ZeroBytes(n: nat): (z: seq<byte>)
    ensures |z| == n && forall i | 0 <= i < n :: z[i] == 0
  {
    seq(n, i => 0)
  }

  function Padding(algo: Algo, n: nat): (p: seq<byte>)
    ensures |p| == 1 + Zeros(n) + 8
  {
    [0x80] + ZeroBytes(Zeros(n)) + LengthField(algo, n)
  }

  function Padded(algo: Algo, m: seq<byte>): (p: seq<byte>)
    ensures |p| == |m| + 1 + Zeros(|m|) + 8
    ensures |p| % BLOCK == 0
  {
    Alignment(|m|);
    m + Padding(algo, |m|)
  }

  lemma Alignment(n: nat)
    ensures (n + 1 + Zeros(n) + 8) % BLOCK == 0
  {
  }

  /** The digest of a message, as the standards define it. */
  function Hash(algo: Algo, f: Compress, m: seq<byte>): seq<byte> {
    algo.StoreAll(Fold(f, algo.Init(), Padded(algo, m)))
  }

  /** The compression unit keeps the number of state words. */
  ghost predicate Sized(f: Compress, n: nat) {
    forall s, b | |s| == n && |b| == BLOCK :: |f(s, b)| == n
  }

  lemma {:induction false} FoldSize(f: Compress, state: seq<word>, m: seq<byte>)
    requires |m| % BLOCK == 0 && Sized(f, |state|)
    ensures |Fold(f, state, m)| == |state|
    decreases |m|
  {
    if m != [] {
      FoldSize(f, f(state, m[..BLOCK]), m[BLOCK..]);
    }
  }

  /** Appending one block compresses once more. */
  lemma {:induction false} FoldAppend(f: Compress, state: seq<word>, m: seq<byte>, b: seq<byte>)
    requires |m| % BLOCK == 0 && |b| == BLOCK
    ensures |m + b| % BLOCK == 0
    ensures Fold(f, state, m + b) == f(Fold(f, state, m), b)
    decreases |m|
  {
    if m == [] {
      assert m + b == b && b[..BLOCK] == b && b[BLOCK..] == [];
    } else {
      FoldAppend(f, f(state, m[..BLOCK]), m[BLOCK..], b);
      assert (m + b)[..BLOCK] == m[..BLOCK] && (m + b)[BLOCK..] == m[BLOCK..] + b;
    }
  }

  /** A 64-bit total kept in two words. */
  function Total(hi: word, lo: word): nat {
    hi * WORD_LIMIT + lo
  }

  lemma TotalWords(hi: word, lo: word)
    ensures HighWord(Total(hi, lo)) == hi && LowWord(Total(hi, lo)) == lo
  {
  }

  lemma BitCountAdd(n: nat, k: nat)
    ensures (BitCount(n) + 8 * k) % (WORD_LIMIT * WORD_LIMIT) == BitCount(n + k)
  {
    ModAddMultiple(BitCount(n) + 8 * k, 8 * n / (WORD_LIMIT * WORD_LIMIT), WORD_LIMIT * WORD_LIMIT);
  }

  /** struct hsha1_state / hmd5_state; done holds the bytes that have been compressed. */
  class Context {
    const algo: Algo
    const compress: Compress
    var buf: array<byte>
    var curlen: nat
    var lengthHi: word
    var lengthLo: word
    var state: seq<word>
    ghost var done: seq<byte>

    ghost predicate Valid()
      reads this, buf
    {
      Filled() && curlen < BLOCK
    }

    /** The compressed bytes are accounted for; the others wait in a buffer that may be full. */
    ghost predicate Filled()
      reads this, buf
    {
      Chained() && Total(lengthHi, lengthLo) == BitCount(|done|)
    }

    ghost predicate Chained()
      reads this, buf
    {
      && buf.Length == BLOCK
      && curlen <= BLOCK
      && Sized(compress, algo.Words())
      && |done| % BLOCK == 0
      && state == Fold(compress, algo.Init(), done)
    }

    /** All bytes taken in so far. */
    ghost function Message(): seq<byte>
      requires buf.Length == BLOCK && curlen <= BLOCK
      reads this, buf
    {
      done + buf[..curlen]
    }

    constructor (algo: Algo, compress: Compress)
      requires Sized(compress, algo.Words())
      ensures this.algo == algo && this.compress == compress
      ensures Valid() && Message() == [] && fresh(buf)
    {
      this.algo := algo;
      this.compress := compress;
      buf := new byte[BLOCK](_ => 0);
      curlen := 0;
      lengthHi, lengthLo := 0, 0;
      state := algo.Init();
      done := [];
    }

    /** tls_crypto_sha1_init / tls_crypto_md5_init on a context used before. */
    method Init()
      requires buf.Length == BLOCK && Sized(compress, algo.Words())
      modifies this
      ensures Valid() && Message() == [] && buf == old(buf)
    {
      state := algo.Init();
      curlen := 0;
      lengthHi, lengthLo := 0, 0;
      done := [];
    }

    /** The carry test makes a sum modulo 2^64 of the two words. */
    method AddBits(bits: nat)
      requires bits < WORD_LIMIT
      modifies this`lengthHi, this`lengthLo
      ensures Total(lengthHi, lengthLo)
           == (old(Total(lengthHi, lengthLo)) + bits) % (WORD_LIMIT * WORD_LIMIT)
    {
      var n := (lengthLo + bits) % WORD_LIMIT;
      if n < lengthLo {
        lengthHi := (lengthHi + 1) % WORD_LIMIT;
      }
      lengthLo := n;
    }

    /** Copies bytes behind those already waiting. */
    method Take(chunk: seq<byte>)
      requires Chained() && curlen + |chunk| <= BLOCK
      modifies this`curlen, buf
      ensures Chained() && curlen == old(curlen) + |chunk|
      ensures Message() == old(Message()) + chunk
    {
      forall i | 0 <= i < |chunk| {
        buf[curlen + i] := chunk[i];
      }
      assert buf[..curlen + |chunk|] == old(buf[..curlen]) + chunk;
      curlen := curlen + |chunk|;
    }

    /** Sends a full buffer through the unit. */
    method Compress()
      requires Chained() && curlen == BLOCK
      modifies this`state, this`curlen, this`done
      ensures Chained() && curlen == 0
      ensures done == Message() == old(Message()) && |done| == |old(done)| + BLOCK
    {
      assert buf[..] == buf[..curlen];
      FoldAppend(compress, algo.Init(), done, buf[..]);
      state := compress(state, buf[..]);
      done := done + buf[..];
      curlen := 0;
    }

    /** tls_crypto_sha1_update / tls_crypto_md5_update. */
    method Update(data: seq<byte>)
      requires Valid()
      modifies this, buf
      ensures Valid() && buf == old(buf)
      ensures Message() == old(Message()) + data
    {
      var rest := data;
      while |rest| > 0
        invariant Valid() && buf == old(buf)
        invariant Message() + rest == old(Message()) + data
        decreases |rest|
      {
        var n := if |rest| < BLOCK - curlen then |rest| else BLOCK - curlen;
        CutAt(Message(), rest, n);
        Take(rest[..n]);
        rest := rest[n..];
        if curlen == BLOCK {
          Flush();
        }
      }
    }

    /** A full buffer is compressed and counted. */
    method Flush()
      requires Filled() && curlen == BLOCK
      modifies this`state, this`curlen, this`done, this`lengthHi, this`lengthLo
      ensures Valid() && Message() == old(Message())
    {
      BitCountAdd(|done|, BLOCK);
      Compress();
      AddBits(512);
    }

    /** Appends zero bytes up to a position in the block. */
    method ZeroUpTo(limit: nat) returns (ghost added: nat)
      requires Chained() && limit <= BLOCK
      modifies this`curlen, buf
      ensures Chained() && added == if old(curlen) < limit then limit - old(curlen) else 0
      ensures curlen == old(curlen) + added
      ensures Message() == old(Message()) + ZeroBytes(added)
    {
      added := 0;
      while curlen < limit
        invariant Chained() && curlen == old(curlen) + added
        invariant added == 0 || curlen <= limit
        invariant Message() == old(Message()) + ZeroBytes(added)
      {
        Take([0]);
        added := added + 1;
        assert ZeroBytes(added) == ZeroBytes(added - 1) + [0];
      }
    }

    /** tls_crypto_sha1_final / tls_crypto_md5_final. */
    method Final(hash: array?<byte>) returns (ret: int)
      requires Valid() && hash != buf
      requires hash != null ==> hash.Length >= 4 * algo.Words()
      modifies this, buf, hash
      ensures hash == null ==> ret == -6 && Valid() && Message() == old(Message())
      ensures hash != null ==>
                ret == 4 * algo.Words() && hash[..ret] == Hash(algo, compress, old(Message()))
      ensures hash != null ==> curlen == lengthHi == lengthLo == 0
    {
      if (algo.Sha1? && curlen >= BLOCK) || hash == null {
        return ERR_ARG_FAIL;
      }
      CountTail();
      Pad();
      ret := Emit(hash);
      Wipe();
    }

    /** Adds the bits still in the buffer to the length. */
    method CountTail()
      requires Valid()
      modifies this`lengthHi, this`lengthLo
      ensures Chained() && Total(lengthHi, lengthLo) == BitCount(|Message()|)
    {
      ghost var n := |done|;
      BitCountAdd(n, curlen);
      AddBits(8 * curlen);
      assert Total(lengthHi, lengthLo) == BitCount(n + curlen);
      NothingAbove(lengthHi, curlen);
      lengthHi := (lengthHi + curlen / 0x2000_0000) % WORD_LIMIT;
      assert |Message()| == n + curlen;
    }

    /** The marker, the zeros and the length, through one or two last blocks. */
    method Pad()
      requires Chained() && curlen < BLOCK
      requires Total(lengthHi, lengthLo) == BitCount(|Message()|)
      modifies this`curlen, this`state, this`done, buf
      ensures Chained() && curlen == 0 && done == Padded(algo, old(Message()))
    {
      ghost var m := Message();
      MarkAndFill();
      TotalWords(lengthHi, lengthLo);
      PaddedShape(algo, m);
      Take(algo.StoreLength(lengthHi, lengthLo));
      Compress();
    }

    /** The marker and the zeros, up to where the length goes. */
    method MarkAndFill()
      requires Chained() && curlen < BLOCK
      modifies this`curlen, this`state, this`done, buf
      ensures Chained() && curlen == 56
      ensures Message() == old(Message()) + [0x80] + ZeroBytes(Zeros(|old(Message())|))
    {
      ghost var m := Message();
      Take([0x80]);
      ghost var spill := 0;
      assert ZeroBytes(0) == [] && m + [0x80] + [] == m + [0x80];
      if curlen > 56 {
        spill := ZeroUpTo(BLOCK);
        Compress();
      }
      assert Message() == m + [0x80] + ZeroBytes(spill);
      ghost var fill := ZeroUpTo(56);
      ZeroRuns(m + [0x80], spill, fill);
      ZerosUnique(|m|, spill + fill, |done|);
    }

    /** Writes the state words out in the byte order of the algorithm. */
    method Emit(hash: array<byte>) returns (n: int)
      requires Sized(compress, algo.Words()) && |done| % BLOCK == 0
      requires state == Fold(compress, algo.Init(), done)
      requires hash.Length >= 4 * algo.Words()
      modifies hash
      ensures n == 4 * algo.Words() && hash[..n] == algo.StoreAll(state)
    {
      FoldSize(compress, algo.Init(), done);
      var i := 0;
      while i < |state|
        invariant 0 <= i <= |state| == algo.Words()
        invariant hash[..4 * i] == algo.StoreAll(state[..i])
      {
        StoreAllNext(algo, state, i);
        PutBytes(hash, 4 * i, algo.Store(state[i]));
        i := i + 1;
      }
      assert state[..i] == state;
      n := 4 * i;
    }

    static method PutBytes(hash: array<byte>, at: nat, w: seq<byte>)
      requires at + |w| <= hash.Length
      modifies hash
      ensures hash[..at + |w|] == old(hash[..at]) + w
    {
      forall k | 0 <= k < |w| {
        hash[at + k] := w[k];
      }
    }

    method Wipe()
      modifies this, buf
      ensures buf == old(buf) && curlen == lengthHi == lengthLo == 0
      ensures forall i | 0 <= i < buf.Length :: buf[i] == 0
      ensures state == seq(algo.Words(), i => 0)
    {
      forall i | 0 <= i < buf.Length {
        buf[i] := 0;
      }
      curlen, lengthHi, lengthLo := 0, 0, 0;
      state := seq(algo.Words(), i => 0);
    }
  }

  lemma NothingAbove(hi: word, curlen: nat)
    requires curlen <= BLOCK
    ensures (hi + curlen / 0x2000_0000) % WORD_LIMIT == hi
  {
  }

  lemma CutAt(m: seq<byte>, rest: seq<byte>, n: nat)
    requires n <= |rest|
    ensures m + rest == m + rest[..n] + rest[n..]
  {
    assert rest == rest[..n] + rest[n..];
    assert m + (rest[..n] + rest[n..]) == m + rest[..n] + rest[n..];
  }

  lemma ZeroRuns(m: seq<byte>, a: nat, b: nat)
    ensures m + ZeroBytes(a) + ZeroBytes(b) == m + ZeroBytes(a + b)
  {
  }

  lemma PaddedShape(algo: Algo, m: seq<byte>)
    ensures m + [0x80] + ZeroBytes(Zeros(|m|)) + LengthField(algo, |m|) == Padded(algo, m)
  {
  }

  lemma ZerosUnique(n: nat, z: nat, whole: nat)
    requires whole % BLOCK == 0 && z < BLOCK && n + 1 + z == whole + 56
    ensures z == Zeros(n)
  {
  }

  lemma {:induction false} StoreAllAppend(algo: Algo, s: seq<word>, w: word)
    ensures algo.StoreAll(s + [w]) == algo.StoreAll(s) + algo.Store(w)
  {
    if s == [] {
      assert s + [w] == [w] && [w][1..] == [];
    } else {
      StoreAllAppend(algo, s[1..], w);
      assert (s + [w])[0] == s[0] && (s + [w])[1..] == s[1..] + [w];
    }
  }

  lemma StoreAllNext(algo: Algo, s: seq<word>, i: nat)
    requires i < |s|
    ensures algo.StoreAll(s[..i + 1]) == algo.StoreAll(s[..i]) + algo.Store(s[i])
  {
    StoreAllAppend(algo, s[..i], s[i]);
    assert s[..i + 1] == s[..i] + [s[i]];
  }

  function Flatten(chunks: seq<seq<byte>>): seq<byte> {
    if chunks == [] then [] else chunks[0] + Flatten(chunks[1..])
  }

  lemma NextChunk(m: seq<byte>, chunks: seq<seq<byte>>, i: nat)
    requires i < |chunks|
    ensures m + Flatten(chunks[i..]) == m + chunks[i] + Flatten(chunks[i + 1..])
  {
    assert chunks[i..][1..] == chunks[i + 1..];
    var x, y := chunks[i], Flatten(chunks[i + 1..]);
    assert m + (x + y) == m + x + y;
  }

  /** However a message is cut into updates, the digest is that of the whole. */
  method DigestInChunks(algo: Algo, compress: Compress, chunks: seq<seq<byte>>, hash: array<byte>)
    returns (ret: int)
    requires Sized(compress, algo.Words()) && hash.Length >= 4 * algo.Words()
    modifies hash
    ensures ret == 4 * algo.Words()
    ensures hash[..ret] == Hash(algo, compress, Flatten(chunks))
  {
    var md := new Context(algo, compress);
    var i := 0;
    while i < |chunks|
      invariant 0 <= i <= |chunks|
      invariant md.Valid() && fresh(md) && fresh(md.buf) && md.buf != hash
      invariant md.algo == algo && md.compress == compress
      invariant md.Message() + Flatten(chunks[i..]) == Flatten(chunks)
    {
      NextChunk(md.Message(), chunks, i);
      md.Update(chunks[i]);
      i := i + 1;
    }
    assert md.Message() == Flatten(chunks);
    ret := md.Final(hash);
  }

  /** The number that four bytes spell, the first on top. */
  function Number(a: byte, b: byte, c: byte, d: byte): nat {
    a * 0x100_0000 + b * 0x1_0000 + c * 0x100 + d
  }

  /** SHA-1 stores a word from its top byte down, MD5 from its lowest byte up. */
  lemma StoreWorth(algo: Algo, w: word)
    ensures var s := algo.Store(w);
            w == if algo.Sha1? then Number(s[0], s[1], s[2], s[3]) else Number(s[3], s[2], s[1], s[0])
  {
    LittleEndianDigits(w);
  }

  /** The last eight bytes, in the byte order of the algorithm, spell the bit count modulo 2^64. */
  lemma LengthFieldWorth(algo: Algo, n: nat)
    ensures var s := LengthField(algo, n);
            8 * n % 0x1_0000_0000_0000_0000
            == if algo.Sha1?
               then Number(s[0], s[1], s[2], s[3]) * 0x1_0000_0000 + Number(s[4], s[5], s[6], s[7])
               else Number(s[7], s[6], s[5], s[4]) * 0x1_0000_0000 + Number(s[3], s[2], s[1], s[0])
  {
    var bits := BitCount(n);
    WordsOfBitCount(n);
    StoreWorth(algo, HighWord(bits));
    StoreWorth(algo, LowWord(bits));
  }

  /**
   * The start words: those of MD5 are the bytes 01 to ef and fe to 10, stored in its own
   * order; SHA-1 starts with the same four words and a fifth.
   */
  lemma StartWords()
    ensures Md5.StoreAll(Md5.Init()) == [0x01, 0x23, 0x45, 0x67, 0x89, 0xab, 0xcd, 0xef,
                                         0xfe, 0xdc, 0xba, 0x98, 0x76, 0x54, 0x32, 0x10]
    ensures |Md5.Init()| == Md5.Words() == 4 && |Sha1.Init()| == Sha1.Words() == 5
    ensures Sha1.Init()[..4] == Md5.Init() && Sha1.Store(Sha1.Init()[4]) == [0xc3, 0xd2, 0xe1, 0xf0]
  {
    StoreFour(Md5, 0x67452301, 0xefcdab89, 0x98badcfe, 0x10325476);
    StartBytes();
  }

  lemma StartBytes()
    ensures LittleEndian(0x67452301) == [0x01, 0x23, 0x45, 0x67] && LittleEndian(0xefcdab89) == [0x89, 0xab, 0xcd, 0xef]
    ensures LittleEndian(0x98badcfe) == [0xfe, 0xdc, 0xba, 0x98] && LittleEndian(0x10325476) == [0x76, 0x54, 0x32, 0x10]
    ensures LittleEndian(0xc3d2e1f0) == [0xf0, 0xe1, 0xd2, 0xc3]
  {
  }

  lemma StoreFour(algo: Algo, w0: word, w1: word, w2: word, w3: word)
    ensures algo.StoreAll([w0, w1, w2, w3]) == algo.Store(w0) + algo.Store(w1) + algo.Store(w2) + algo.Store(w3)
  {
    assert [w0, w1, w2, w3] == [w0] + [w1] + [w2] + [w3];
    StoreAllAppend(algo, [], w0);
    StoreAllAppend(algo, [w0], w1);
    StoreAllAppend(algo, [w0] + [w1], w2);
    StoreAllAppend(algo, [w0] + [w1] + [w2], w3);
    assert [] + [w0] == [w0] && algo.StoreAll([]) + algo.Store(w0) == algo.Store(w0);
  }

  /** Each word of the state stands in its own four bytes of the output. */
  lemma {:induction false} StoreAllAt(algo: Algo, state: seq<word>, i: nat)
    requires i < |state|
    ensures algo.StoreAll(state)[4 * i..4 * i + 4] == algo.Store(state[i])
  {
    if i > 0 {
      StoreAllAt(algo, state[1..], i - 1);
      var rest := algo.StoreAll(state[1..]);
      assert algo.StoreAll(state)[4 * i..4 * i + 4] == rest[4 * i - 4..4 * i];
    }
  }

  /**
   * What is compressed: the message, the byte 80 hex, as few zeros as fill the last block
   * of 64 bytes, and the length.
   */
  lemma PaddedLayout(algo: Algo, m: seq<byte>)
    ensures var p := Padded(algo, m);
            && |p| % 64 == 0 && |m| + 9 <= |p| < |m| + 9 + 64
            && p[..|m|] == m && p[|m|] == 0x80
            && (forall i | |m| < i < |p| - 8 :: p[i] == 0)
            && p[|p| - 8..] == LengthField(algo, |m|)
  {
    PaddedEnds(algo, m);
    var p, n := Padded(algo, m), |m|;
    forall i | n < i < |p| - 8
      ensures p[i] == 0
    {
      assert p[i] == Padding(algo, n)[i - n] == ZeroBytes(Zeros(n))[i - n - 1];
    }
  }

  /** A message that fits one block with its padding takes one compression of the start words. */
  lemma HashOfOneBlock(algo: Algo, f: Compress, m: seq<byte>)
    requires |m| <= 55
    ensures |Padded(algo, m)| == 64
    ensures Hash(algo, f, m) == algo.StoreAll(f(algo.Init(), Padded(algo, m)))
  {
    PaddedLayout(algo, m);
    FoldOne(f, algo.Init(), Padded(algo, m));
  }

  lemma FoldOne(f: Compress, state: seq<word>, b: seq<byte>)
    requires |b| == 64
    ensures Fold(f, state, []) == state && Fold(f, state, b) == f(state, b)
  {
    assert [] + b == b;
    FoldAppend(f, state, [], b);
  }

  /** The two length words can be read back from the end of the padding. */
  lemma LengthFieldInjective(algo: Algo, h0: word, l0: word, h1: word, l1: word)
    requires algo.StoreLength(h0, l0) == algo.StoreLength(h1, l1)
    ensures h0 == h1 && l0 == l1
  {
    var s0, s1 := algo.StoreLength(h0, l0), algo.StoreLength(h1, l1);
    assert s0[..4] == s1[..4] && s0[4..] == s1[4..];
    StoreInjective(algo, h0, h1);
    StoreInjective(algo, l0, l1);
  }

  lemma StoreInjective(algo: Algo, a: word, b: word)
    ensures algo.Store(a) == algo.Store(b) ==> a == b
  {
    if algo.Store(a) == algo.Store(b) {
      var x, y := algo.Store(a), algo.Store(b);
      assert x[0] == y[0] && x[1] == y[1] && x[2] == y[2] && x[3] == y[3];
      LittleEndianDigits(a);
      LittleEndianDigits(b);
    }
  }

  lemma LittleEndianDigits(w: word)
    ensures var s := LittleEndian(w);
            w as int == s[0] as int + 0x100 * (s[1] as int) + 0x1_0000 * (s[2] as int) + 0x100_0000 * (s[3] as int)
  {
  }

  /** Different messages have different padded forms, whatever their lengths. */
  lemma PaddingInjective(algo: Algo, a: seq<byte>, b: seq<byte>)
    requires Padded(algo, a) == Padded(algo, b)
    ensures a == b
  {
    PaddedEnds(algo, a);
    PaddedEnds(algo, b);
    PaddedLength(algo, a, b);
  }

  lemma PaddedLength(algo: Algo, a: seq<byte>, b: seq<byte>)
    requires |Padded(algo, a)| == |Padded(algo, b)|
    requires LengthField(algo, |a|) == LengthField(algo, |b|)
    ensures |a| == |b|
  {
    var m, n := BitCount(|a|), BitCount(|b|);
    LengthFieldInjective(algo, HighWord(m), LowWord(m), HighWord(n), LowWord(n));
    WordsOfBitCount(|a|);
    WordsOfBitCount(|b|);
    NearbyLengths(|a|, |b|);
  }

  lemma WordsOfBitCount(n: nat)
    ensures Total(HighWord(BitCount(n)), LowWord(BitCount(n))) == BitCount(n)
  {
  }

  lemma PaddedEnds(algo: Algo, m: seq<byte>)
    ensures var p := Padded(algo, m);
            p[..|m|] == m && p[|p| - 8..] == LengthField(algo, |m|)
  {
  }

  lemma NearbyLengths(m: nat, n: nat)
    requires BitCount(m) == BitCount(n)
    requires m + 1 + Zeros(m) + 8 == n + 1 + Zeros(n) + 8
    ensures m == n
  {
    var limit := WORD_LIMIT * WORD_LIMIT;
    assert 8 * m - 8 * n == limit * (8 * m / limit - 8 * n / limit);
  }
}
