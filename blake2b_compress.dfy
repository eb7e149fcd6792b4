/** BLAKE2b constants, little-endian word access and the compression function F
    with its mixing function G (RFC 7693, sections 2.6, 2.7, 3.1 and 3.2), for
    64-bit words. Chaining and work-vector words are `bv64`, so `+` wraps modulo
    2^64 exactly as Go's uint64 arithmetic does. */
module Blake2bCompress {

  /** Go's `BlockSize` constant and the value of `(*digest).BlockSize()`. */
  const BlockBytes := 128
  /** Go's `KeySize` constant, the longest key that is used in full. */
  const KeyBytes := 64
  /** The value of `(*digest).Size()` and the length of every digest. */
  const DigestBytes := 64
  /** Capacity of the input buffer, `2 * BlockSize`. */
  const BufBytes := 2 * BlockBytes
  /** Number of rounds of F. */
  const Rounds := 12

  /** 2^64, the modulus of Go's uint64 arithmetic. */
  const WordModulus := 0x1_0000_0000_0000_0000
  /** A Go uint64 held as an integer: used for the byte counter `t`, whose
      arithmetic is written out modulo 2^64. */
  type Uint64 = x: int | 0 <= x < WordModulus

  /** All 64 bits set: the value of the final-block flag `f[0]`. */
  const AllOnes: bv64 := 0xffff_ffff_ffff_ffff

  const IV: seq<bv64> := [
    0x6a09e667f3bcc908, 0xbb67ae8584caa73b,
    0x3c6ef372fe94f82b, 0xa54ff53a5f1d36f1,
    0x510e527fade682d1, 0x9b05688c2b3e6c1f,
    0x1f83d9abfb41bd6b, 0x5be0cd19137e2179
  ]

  // ---------------------------------------------------------------------------
  // The message schedule sigma: 12 rows, each meant to be a permutation of 0..15.

  type Index16 = x: int | 0 <= x < 16
  type SigmaRow = s: seq<Index16> | |s| == 16
    witness [0, 0, 0, 0, 0, 0, 0, 0, 0, 0, 0, 0, 0, 0, 0, 0]

  const SigmaRow0: SigmaRow := [0, 1, 2, 3, 4, 5, 6, 7, 8, 9, 10, 11, 12, 13, 14, 15]
  const SigmaRow1: SigmaRow := [14, 10, 4, 8, 9, 15, 13, 6, 1, 12, 0, 2, 11, 7, 5, 3]
  const SigmaRow2: SigmaRow := [11, 8, 12, 0, 5, 2, 15, 13, 10, 14, 3, 6, 7, 1, 9, 4]
  const SigmaRow3: SigmaRow := [7, 9, 3, 1, 13, 12, 11, 14, 2, 6, 5, 10, 4, 0, 15, 8]
  const SigmaRow4: SigmaRow := [9, 0, 5, 7, 2, 4, 10, 15, 14, 1, 11, 12, 6, 8, 3, 13]
  const SigmaRow5: SigmaRow := [2, 12, 6, 10, 0, 11, 8, 3, 4, 13, 7, 5, 15, 14, 1, 9]
  const SigmaRow6: SigmaRow := [12, 5, 1, 15, 14, 13, 4, 10, 0, 7, 6, 3, 9, 2, 8, 11]
  const SigmaRow7: SigmaRow := [13, 11, 7, 14, 12, 1, 3, 9, 5, 0, 15, 4, 8, 6, 2, 10]
  const SigmaRow8: SigmaRow := [6, 15, 14, 9, 11, 3, 0, 8, 12, 2, 13, 7, 1, 4, 10, 5]
  const SigmaRow9: SigmaRow := [10, 2, 8, 4, 7, 6, 1, 5, 15, 11, 9, 14, 3, 12, 13, 0]
  const SigmaRow10: SigmaRow := [0, 1, 2, 3, 4, 5, 6, 7, 8, 9, 10, 11, 12, 13, 14, 15]
  const SigmaRow11: SigmaRow := [14, 10, 4, 8, 9, 15, 13, 6, 1, 12, 0, 2, 11, 7, 5, 3]

  const Sigma: seq<SigmaRow> := [
    SigmaRow0, SigmaRow1, SigmaRow2, SigmaRow3, SigmaRow4, SigmaRow5,
    SigmaRow6, SigmaRow7, SigmaRow8, SigmaRow9, SigmaRow10, SigmaRow11
  ]

  predicate IsPermutation16(row: SigmaRow) {
    forall i, j :: 0 <= i < j < 16 ==> row[i] != row[j]
  }

  lemma Row0IsPermutation() ensures IsPermutation16(SigmaRow0) {}
  lemma Row1IsPermutation() ensures IsPermutation16(SigmaRow1) {}
  lemma Row2IsPermutation() ensures IsPermutation16(SigmaRow2) {}
  lemma Row3IsPermutation() ensures IsPermutation16(SigmaRow3) {}
  lemma Row4IsPermutation() ensures IsPermutation16(SigmaRow4) {}
  lemma Row5IsPermutation() ensures IsPermutation16(SigmaRow5) {}
  lemma Row6IsPermutation() ensures IsPermutation16(SigmaRow6) {}
  lemma Row7IsPermutation() ensures IsPermutation16(SigmaRow7) {}
  lemma Row8IsPermutation() ensures IsPermutation16(SigmaRow8) {}
  lemma Row9IsPermutation() ensures IsPermutation16(SigmaRow9) {}
  lemma Row10IsPermutation() ensures IsPermutation16(SigmaRow10) {}
  lemma Row11IsPermutation() ensures IsPermutation16(SigmaRow11) {}

  /** Every row of the table is a permutation of 0..15: the 16 message words are
      each used exactly once per round. */
  lemma SigmaRowsArePermutations(r: nat)
    requires r < |Sigma|
    ensures IsPermutation16(Sigma[r])
  {
    if r == 0 { Row0IsPermutation(); }
    else if r == 1 { Row1IsPermutation(); }
    else if r == 2 { Row2IsPermutation(); }
    else if r == 3 { Row3IsPermutation(); }
    else if r == 4 { Row4IsPermutation(); }
    else if r == 5 { Row5IsPermutation(); }
    else if r == 6 { Row6IsPermutation(); }
    else if r == 7 { Row7IsPermutation(); }
    else if r == 8 { Row8IsPermutation(); }
    else if r == 9 { Row9IsPermutation(); }
    else if r == 10 { Row10IsPermutation(); }
    else { Row11IsPermutation(); }
  }

  /** Rows 10 and 11 repeat rows 0 and 1: the table is the 10-row schedule of
      RFC 7693 section 2.7 indexed by round mod 10. */
  lemma SigmaPeriodTen(r: nat)
    requires r < |Sigma|
    ensures |Sigma| == Rounds && Sigma[r] == Sigma[r % 10]
  {
  }

  // ---------------------------------------------------------------------------
  // Little-endian words (Go's binary.LittleEndian.Uint64 / PutUint64).

  /** The 64-bit word whose little-endian encoding is `b`. */
  function LoadLE(b: seq<bv8>): bv64
    requires |b| == 8
  {
    (b[0] as bv64) | (b[1] as bv64 << 8) | (b[2] as bv64 << 16) | (b[3] as bv64 << 24) |
    (b[4] as bv64 << 32) | (b[5] as bv64 << 40) | (b[6] as bv64 << 48) | (b[7] as bv64 << 56)
  }

  /** The 8-byte little-endian encoding of `w`, least significant byte first. */
  function StoreLE(w: bv64): (r: seq<bv8>)
    ensures |r| == 8
  {
    [(w & 0xff) as bv8, ((w >> 8) & 0xff) as bv8, ((w >> 16) & 0xff) as bv8,
     ((w >> 24) & 0xff) as bv8, ((w >> 32) & 0xff) as bv8, ((w >> 40) & 0xff) as bv8,
     ((w >> 48) & 0xff) as bv8, ((w >> 56) & 0xff) as bv8]
  }

  lemma LoadStore(w: bv64)
    ensures LoadLE(StoreLE(w)) == w
  {
  }

  lemma StoreLoad(b: seq<bv8>)
    requires |b| == 8
    ensures StoreLE(LoadLE(b)) == b
  {
  }

  /** The little-endian serialisation of a sequence of words, in order. */
  function Encode(h: seq<bv64>): (r: seq<bv8>)
    ensures |r| == 8 * |h|
  {
    if |h| == 0 then [] else Encode(h[..|h| - 1]) + StoreLE(h[|h| - 1])
  }

  /** Each 8-byte group of the serialisation decodes back to its word. */
  lemma {:induction false} EncodeDecodes(h: seq<bv64>, i: nat)
    requires i < |h|
    ensures Encode(h)[8 * i..8 * i + 8] == StoreLE(h[i])
    ensures LoadLE(Encode(h)[8 * i..8 * i + 8]) == h[i]
  {
    var n := |h| - 1;
    var e := Encode(h[..n]);
    assert Encode(h) == e + StoreLE(h[n]);
    if i < n {
      EncodeDecodes(h[..n], i);
      assert Encode(h)[8 * i..8 * i + 8] == e[8 * i..8 * i + 8];
    } else {
      assert Encode(h)[8 * i..8 * i + 8] == StoreLE(h[n]);
    }
    LoadStore(h[i]);
  }


  // ---------------------------------------------------------------------------
  // Sixteen-word vectors: the work vector `v` and the message block `m` of
  // `compress` (both `[16]uint64` locals there), held as values.

  type Words16 = s: seq<bv64> | |s| == 16
    witness [0, 0, 0, 0, 0, 0, 0, 0, 0, 0, 0, 0, 0, 0, 0, 0]

  /** The chaining value `h` (`[8]uint64`). */
  type Chain = s: seq<bv64> | |s| == 8 witness [0, 0, 0, 0, 0, 0, 0, 0]

  /** The flags `f` (`[2]uint64`). */
  type Pair = s: seq<bv64> | |s| == 2 witness [0, 0]

  /** The byte counter `t` (`[2]uint64`), low word first. */
  type Counter = s: seq<Uint64> | |s| == 2 witness [0, 0]

  /** The 16 message words of a block: word i is bytes 8i..8i+8 read little-endian
      (the first loop of `compress`). */
  function MessageWords(block: seq<bv8>): (m: Words16)
    requires |block| >= BlockBytes
  {
    seq(16, (i: int) requires 0 <= i < 16 => LoadLE(block[8 * i..8 * i + 8]))
  }

  /** `compress` reads nothing of the buffer beyond its first block. */
  lemma MessageWordsReadFirstBlock(a: seq<bv8>, b: seq<bv8>)
    requires |a| >= BlockBytes && |b| >= BlockBytes && a[..BlockBytes] == b[..BlockBytes]
    ensures MessageWords(a) == MessageWords(b)
  {
    forall k | 0 <= k < BlockBytes ensures a[k] == b[k] {
      assert a[k] == a[..BlockBytes][k];
    }
    forall i | 0 <= i < 16 ensures MessageWords(a)[i] == MessageWords(b)[i] {
      assert a[8 * i..8 * i + 8] == b[8 * i..8 * i + 8];
    }
  }

  /** Each message word re-encodes to its 8 bytes of the block. */
  lemma MessageWordsEncodeBlock(block: seq<bv8>, i: Index16)
    requires |block| >= BlockBytes
    ensures StoreLE(MessageWords(block)[i]) == block[8 * i..8 * i + 8]
  {
    StoreLoad(block[8 * i..8 * i + 8]);
  }

  // ---------------------------------------------------------------------------
  // Word operations, G and F.

  /** uint64 addition, wrapping modulo 2^64. */
  function Add(x: bv64, y: bv64): bv64 { x + y }

  function Xor(x: bv64, y: bv64): bv64 { x ^ y }

  /** Go's `rotr64` closure: `(w >> c) | (w << (64 - c))` with `c` a uint, where a
      shift by 64 or more yields 0 (for c > 64 the subtraction wraps to a huge
      shift count). */
  function Rotr64(w: bv64, c: bv64): bv64
  {
    if c > 64 then 0 else (w >> c) | (w << (64 - c))
  }

  /** For the four rotation distances G uses, `rotr64` is rotation to the right. */
  lemma Rotr64IsRotation(w: bv64)
    ensures Rotr64(w, 32) == w.RotateRight(32)
    ensures Rotr64(w, 24) == w.RotateRight(24)
    ensures Rotr64(w, 16) == w.RotateRight(16)
    ensures Rotr64(w, 63) == w.RotateRight(63)
  {
  }

  /** Go's `G` closure (RFC 7693 section 3.1 with rotations 32, 24, 16, 63): the
      eight assignments to v[a], v[d], v[c], v[b], with message words x and y. */
  function G(v: Words16, a: Index16, b: Index16, c: Index16, d: Index16, x: bv64, y: bv64): Words16
  {
    var v1 := v[a := Add(Add(v[a], v[b]), x)];
    var v2 := v1[d := Rotr64(Xor(v1[d], v1[a]), 32)];
    var v3 := v2[c := Add(v2[c], v2[d])];
    var v4 := v3[b := Rotr64(Xor(v3[b], v3[c]), 24)];
    var v5 := v4[a := Add(Add(v4[a], v4[b]), y)];
    var v6 := v5[d := Rotr64(Xor(v5[d], v5[a]), 16)];
    var v7 := v6[c := Add(v6[c], v6[d])];
    v7[b := Rotr64(Xor(v7[b], v7[c]), 63)]
  }

  /** The arguments (a, b, c, d) of the i-th G call of a round: the four columns,
      then the four diagonals. */
  datatype Quad = Quad(a: Index16, b: Index16, c: Index16, d: Index16)

  function Position(i: nat): Quad
    requires i < 8
  {
    match i
    case 0 => Quad(0, 4, 8, 12)
    case 1 => Quad(1, 5, 9, 13)
    case 2 => Quad(2, 6, 10, 14)
    case 3 => Quad(3, 7, 11, 15)
    case 4 => Quad(0, 5, 10, 15)
    case 5 => Quad(1, 6, 11, 12)
    case 6 => Quad(2, 7, 8, 13)
    case _ => Quad(3, 4, 9, 14)
  }

  /** The message words in the order a round consumes them: word k of the result
      is m[s[k]], so the i-th G call of the round takes words 2i and 2i + 1. */
  function Schedule(m: Words16, s: SigmaRow): Words16
  {
    seq(16, (k: int) requires 0 <= k < 16 => m[s[k]])
  }

  /** The i-th G call of a round whose scheduled message words are x. */
  function MixStep(v: Words16, x: Words16, i: nat): Words16
    requires i < 8
  {
    var q := Position(i);
    G(v, q.a, q.b, q.c, q.d, x[2 * i], x[2 * i + 1])
  }

  /** The first n G calls of a round. */
  function Mix(v: Words16, x: Words16, n: nat): Words16
    requires n <= 8
  {
    if n == 0 then v else MixStep(Mix(v, x, n - 1), x, n - 1)
  }

  /** One round: G on the four columns, then on the four diagonals. */
  function Round(v: Words16, x: Words16): Words16
  {
    Mix(v, x, 8)
  }

  /** The first n rounds, round i using row i of the 12-row table. */
  function RoundsFrom(v: Words16, m: Words16, n: nat): Words16
    requires n <= Rounds
  {
    if n == 0 then v else Round(RoundsFrom(v, m, n - 1), Schedule(m, Sigma[n - 1]))
  }

  /** The RFC's right rotation `>>>` of a word. */
  function RotateRight(w: bv64, n: nat): bv64
    requires n < 64
  {
    w.RotateRight(n)
  }

  /** G as RFC 7693 section 3.1 writes it for BLAKE2b: additions modulo 2^64 and
      rotations to the right by R1..R4 = 32, 24, 16, 63. */
  function RfcG(v: Words16, a: Index16, b: Index16, c: Index16, d: Index16, x: bv64, y: bv64): Words16
  {
    var v1 := v[a := Add(Add(v[a], v[b]), x)];
    var v2 := v1[d := RotateRight(Xor(v1[d], v1[a]), 32)];
    var v3 := v2[c := Add(v2[c], v2[d])];
    var v4 := v3[b := RotateRight(Xor(v3[b], v3[c]), 24)];
    var v5 := v4[a := Add(Add(v4[a], v4[b]), y)];
    var v6 := v5[d := RotateRight(Xor(v5[d], v5[a]), 16)];
    var v7 := v6[c := Add(v6[c], v6[d])];
    v7[b := RotateRight(Xor(v7[b], v7[c]), 63)]
  }

  /** The (a, b, c, d) arguments of the eight G calls of a round in RFC 7693
      section 3.2: the four columns, then the four diagonals. */
  const RfcQuads: seq<Quad> := [
    Quad(0, 4, 8, 12), Quad(1, 5, 9, 13), Quad(2, 6, 10, 14), Quad(3, 7, 11, 15),
    Quad(0, 5, 10, 15), Quad(1, 6, 11, 12), Quad(2, 7, 8, 13), Quad(3, 4, 9, 14)]

  /** The first n G calls of an RFC round with message schedule s: call i takes
      m[s[2i]] and m[s[2i + 1]]. */
  function RfcMix(v: Words16, m: Words16, s: SigmaRow, n: nat): Words16
    requires n <= 8
  {
    if n == 0 then v
    else
      var q := RfcQuads[n - 1];
      RfcG(RfcMix(v, m, s, n - 1), q.a, q.b, q.c, q.d, m[s[2 * (n - 1)]], m[s[2 * (n - 1) + 1]])
  }

  /** One round of RFC 7693 section 3.2 with message schedule s. */
  function RfcRound(v: Words16, m: Words16, s: SigmaRow): Words16
  {
    RfcMix(v, m, s, 8)
  }

  /** The first n rounds as RFC 7693 section 3.2 writes them: round i uses
      SIGMA[i mod 10] of the 10-row schedule. */
  function RfcRounds(v: Words16, m: Words16, n: nat): Words16
    requires n <= Rounds
  {
    if n == 0 then v else RfcRound(RfcRounds(v, m, n - 1), m, Sigma[(n - 1) % 10])
  }

  /** Go's rotations by 32, 24, 16 and 63 are the RFC's, for every word. */
  lemma RotationsAgree()
    ensures forall w: bv64 {:trigger Rotr64(w, 32)} :: Rotr64(w, 32) == RotateRight(w, 32)
    ensures forall w: bv64 {:trigger Rotr64(w, 24)} :: Rotr64(w, 24) == RotateRight(w, 24)
    ensures forall w: bv64 {:trigger Rotr64(w, 16)} :: Rotr64(w, 16) == RotateRight(w, 16)
    ensures forall w: bv64 {:trigger Rotr64(w, 63)} :: Rotr64(w, 63) == RotateRight(w, 63)
  {
    forall w: bv64 ensures Rotr64(w, 32) == RotateRight(w, 32) && Rotr64(w, 24) == RotateRight(w, 24)
      && Rotr64(w, 16) == RotateRight(w, 16) && Rotr64(w, 63) == RotateRight(w, 63)
    {
      Rotr64IsRotation(w);
    }
  }

  /** Go's G, with its shift-expression rotations, is the RFC's G. */
  lemma GMatchesRfc(v: Words16, a: Index16, b: Index16, c: Index16, d: Index16, x: bv64, y: bv64)
    ensures G(v, a, b, c, d, x, y) == RfcG(v, a, b, c, d, x, y)
  {
    RotationsAgree();
  }

  /** The i-th G call of a round of `compress` (Position and Schedule) is the
      RFC's i-th call. */
  lemma MixStepMatchesRfc(w: Words16, m: Words16, s: SigmaRow, k: nat)
    requires k < 8
    ensures var q := RfcQuads[k];
      MixStep(w, Schedule(m, s), k) == RfcG(w, q.a, q.b, q.c, q.d, m[s[2 * k]], m[s[2 * k + 1]])
  {
    var q := Position(k);
    assert q == RfcQuads[k];
    GMatchesRfc(w, q.a, q.b, q.c, q.d, m[s[2 * k]], m[s[2 * k + 1]]);
  }

  /** The first n G calls of a round of `compress` are those of the RFC's round. */
  lemma {:induction false} MixMatchesRfc(v: Words16, m: Words16, s: SigmaRow, n: nat)
    requires n <= 8
    ensures Mix(v, Schedule(m, s), n) == RfcMix(v, m, s, n)
  {
    if n > 0 {
      MixMatchesRfc(v, m, s, n - 1);
      MixStepMatchesRfc(Mix(v, Schedule(m, s), n - 1), m, s, n - 1);
    }
  }

  /** The 12 rounds of `compress`, with the 12-row table, are the RFC's rounds
      with the mod-10 schedule. */
  lemma {:induction false} RoundsMatchRfc(v: Words16, m: Words16, n: nat)
    requires n <= Rounds
    ensures RoundsFrom(v, m, n) == RfcRounds(v, m, n)
  {
    if n > 0 {
      RoundsMatchRfc(v, m, n - 1);
      SigmaPeriodTen(n - 1);
      MixMatchesRfc(RoundsFrom(v, m, n - 1), m, Sigma[(n - 1) % 10], 8);
    }
  }

  /** A counter word as the uint64 Go stores. */
  function CounterWord(x: Uint64): bv64 { x as bv64 }

  /** The work vector at the start of F (RFC 7693 section 3.2): the chaining value,
      the first half of IV, and the second half of IV mixed with counter and flags. */
  function InitialWork(h: Chain, t: Counter, f: Pair): Words16
  {
    h + IV[..4] + [Xor(CounterWord(t[0]), IV[4]), Xor(CounterWord(t[1]), IV[5]),
                   Xor(f[0], IV[6]), Xor(f[1], IV[7])]
  }

  /** The feed-forward h[i] ^ v[i] ^ v[i + 8] that ends F. */
  function FeedForward(h: Chain, v: Words16): Chain
  {
    seq(8, (i: int) requires 0 <= i < 8 => Xor(Xor(h[i], v[i]), v[i + 8]))
  }

  /** The compression function F of `compress`: word i of the new chaining value
      is h[i] ^ v[i] ^ v[i + 8], v being the work vector after the twelve rounds.
      The rounds sit inside the word-by-word definition, so that facts about
      the digest that do not look at individual chaining words never expand them. */
  function F(h: Chain, m: Words16, t: Counter, f: Pair): Chain
  {
    seq(8, (i: int) requires 0 <= i < 8 =>
      var v := RoundsFrom(InitialWork(h, t, f), m, Rounds);
      Xor(Xor(h[i], v[i]), v[i + 8]))
  }

  /** F is the feed-forward of the work vector after the rounds. */
  lemma FIsFeedForward(h: Chain, m: Words16, t: Counter, f: Pair)
    ensures F(h, m, t, f) == FeedForward(h, RoundsFrom(InitialWork(h, t, f), m, Rounds))
  {
  }

  /** A 128-bit byte count, the RFC's t. */
  type Uint128 = x: int | 0 <= x < WordModulus * WordModulus

  /** The work vector at the start of the RFC's F: v[0..7] = h, v[8..15] = IV,
      then v[12] ^= t mod 2^64, v[13] ^= t >> 64, and v[14] inverted for the last
      block. */
  function RfcInitialWork(h: Chain, t: Uint128, last: bool): Words16
  {
    var lo := (t % WordModulus) as bv64;
    var hi := (t / WordModulus) as bv64;
    h + IV[..4] + [IV[4] ^ lo, IV[5] ^ hi, if last then IV[6] ^ AllOnes else IV[6], IV[7]]
  }

  /** F as RFC 7693 section 3.2 defines it, with the 128-bit count t and the
      last-block flag; its last step h[i] := h[i] ^ v[i] ^ v[i + 8] is FeedForward. */
  function RfcF(h: Chain, m: Words16, t: Uint128, last: bool): Chain
  {
    FeedForward(h, RfcRounds(RfcInitialWork(h, t, last), m, Rounds))
  }

  /** The counter words and flag words `compress` receives for the RFC's count t
      and last-block flag; Go never sets the last-node flag f[1]. */
  function SplitCount(t: Uint128): Counter {
    [t % WordModulus, t / WordModulus]
  }

  function LastFlags(last: bool): Pair {
    [if last then AllOnes else 0, 0]
  }

  lemma XorCommutes(x: bv64, y: bv64)
    ensures Xor(x, y) == y ^ x
  {
  }

  /** Go's flag word f[0] ^ iv[k], with f[0] all ones or zero, is the RFC's
      conditional inversion. */
  lemma FlagWord(x: bv64, last: bool)
    ensures Xor(if last then AllOnes else 0, x) == if last then x ^ AllOnes else x
  {
    if last {
      XorCommutes(AllOnes, x);
    } else {
      assert Xor(0, x) == x;
    }
  }

  /** The work vector `compress` starts from is the RFC's. */
  lemma InitialWorkMatchesRfc(h: Chain, t: Uint128, last: bool)
    ensures InitialWork(h, SplitCount(t), LastFlags(last)) == RfcInitialWork(h, t, last)
  {
    var lo := (t % WordModulus) as bv64;
    var hi := (t / WordModulus) as bv64;
    assert CounterWord(SplitCount(t)[0]) == lo;
    assert CounterWord(SplitCount(t)[1]) == hi;
    XorCommutes(lo, IV[4]);
    XorCommutes(hi, IV[5]);
    FlagWord(IV[6], last);
    FlagWord(IV[7], false);
  }

  /** `compress` computes the RFC's F on every block: same work vector, same
      rounds, same feed-forward. */
  lemma FMatchesRfc(h: Chain, m: Words16, t: Uint128, last: bool)
    ensures F(h, m, SplitCount(t), LastFlags(last)) == RfcF(h, m, t, last)
  {
    var iw := InitialWork(h, SplitCount(t), LastFlags(last));
    InitialWorkMatchesRfc(h, t, last);
    RoundsMatchRfc(iw, m, Rounds);
    FIsFeedForward(h, m, SplitCount(t), LastFlags(last));
  }

  // ---------------------------------------------------------------------------
  // The steps of `compress` that work on its local vectors.

  /** The first loop of `compress`: the message words loaded from `block`. */
  method LoadMessage(block: array<bv8>) returns (m: Words16)
    requires block.Length >= BlockBytes
    ensures m == MessageWords(block[..])
  {
    ghost var b := block[..];
    var words := new bv64[16];
    for i := 0 to 16
      invariant forall k :: 0 <= k < i ==> words[k] == LoadLE(b[8 * k..8 * k + 8])
    {
      assert block[8 * i..8 * i + 8] == b[8 * i..8 * i + 8];
      words[i] := LoadLE(block[8 * i..8 * i + 8]);
    }
    m := words[..];
    assert m == MessageWords(b);
  }

  /** The round loop of `compress`: 12 iterations, iteration r making the eight G
      calls of a round with the message words of schedule row sigma[r]. */
  method MixRounds(v0: Words16, m: Words16) returns (v: Words16)
    ensures v == RoundsFrom(v0, m, Rounds)
  {
    v := v0;
    for r := 0 to Rounds
      invariant v == RoundsFrom(v0, m, r)
    {
      v := Round(v, Schedule(m, Sigma[r]));
    }
  }

  /** The last loop of `compress`, in place: h[i] ^= v[i] ^ v[i + 8]. */
  method FeedForwardInto(h: array<bv64>, v: Words16)
    requires h.Length == 8
    modifies h
    ensures h[..] == FeedForward(old(h[..]), v)
  {
    ghost var h0 := h[..];
    for i := 0 to 8
      invariant forall k :: 0 <= k < i ==> h[k] == Xor(Xor(h0[k], v[k]), v[k + 8])
      invariant forall k :: i <= k < 8 ==> h[k] == h0[k]
    {
      h[i] := Xor(Xor(h[i], v[i]), v[i + 8]);
    }
  }
}
