/** BLAKE2s constants, little-endian word access and the compression function F
    with its mixing function G (RFC 7693, sections 2.6, 2.7, 3.1 and 3.2), for
    32-bit words, as blake2s/blake2s.go computes them. Chaining and work-vector
    words are `bv32`, so `+` wraps modulo 2^32 exactly as Go's uint32
    arithmetic does. */
module Blake2sCompress {

  /** Go's `BlockSize` constant and the value of `(*digest).BlockSize()`. */
  const BlockBytes := 64
  /** Go's `KeySize` constant, the longest key that is used in full. */
  const KeyBytes := 32
  /** The value of `(*digest).Size()` and the length of every digest. */
  const DigestBytes := 32
  /** Capacity of the input buffer, `2 * BlockSize`. */
  const BufBytes := 2 * BlockBytes
  /** Number of rounds of F. */
  const Rounds := 10

  /** 2^32, the modulus of Go's uint32 arithmetic. */
  const WordModulus := 0x1_0000_0000
  /** A Go uint32 held as an integer: used for the byte counter `t`, whose
      arithmetic is written out modulo 2^32. */
  type Uint32 = x: int | 0 <= x < WordModulus

  /** All 32 bits set: the value of the final-block flag `f[0]`. */
  const AllOnes: bv32 := 0xffff_ffff

  const IV: seq<bv32> := [
    0x6A09E667, 0xBB67AE85, 0x3C6EF372, 0xA54FF53A,
    0x510E527F, 0x9B05688C, 0x1F83D9AB, 0x5BE0CD19
  ]

  // ---------------------------------------------------------------------------
  // The message schedule sigma: the 10 rows of RFC 7693 section 2.7, each meant
  // to be a permutation of 0..15.

  type Index16 = x: int | 0 <= x < 16
  type SigmaRow = s: seq<Index16> | |s| == 16
    witness [0, 0, 0, 0, 0, 0, 0, 0, 0, 0, 0, 0, 0, 0, 0, 0]

  const SigmaRow0: SigmaRow := [0, 1, 2, 3, 4, 5, 6, 7, 8, 9, 10, 11, 12, 13, 14, 15]
  const SigmaRow1: SigmaRow := [14, 10, 4, 8, 9, 15, 13, 6, 1, 12, 0, 2, 11, 7, 5, 3]
  const SigmaRow2: SigmaRow := [11, 8, 12, 0, 5, 2, 15, 13, 10, 14, 3, 6, 7, 1, 9, 4]
  const SigmaRow3: SigmaRow := [7, 9, 3, 1, 13, 12, 11, 14, 2, 6, 5, 10, 4, 0, 15, 8]
  const SigmaRow4: SigmaRow := [9, 0, 5, 7, 2, 4, 10, 15, 14, 1, 11, 12, 6, 8, 3, 13]
  const SigmaRow5: SigmaRow := [2, 12, 6, 10, 0, 11, 8, 3, 4, 13, 7, 5, 15, 14, 1, 9]
  const SigmaRow6: SigmaRow := [12, 5, 1, 15, 14, 13, 4, 10, 0, 7, 6, 3, 9, 2, 8, 11]
  const SigmaRow7: SigmaRow := [13, 11, 7, 14, 12, 1, 3, 9, 5, 0, 15, 4, 8, 6, 2, 10]
  const SigmaRow8: SigmaRow := [6, 15, 14, 9, 11, 3, 0, 8, 12, 2, 13, 7, 1, 4, 10, 5]
  const SigmaRow9: SigmaRow := [10, 2, 8, 4, 7, 6, 1, 5, 15, 11, 9, 14, 3, 12, 13, 0]

  const Sigma: seq<SigmaRow> := [
    SigmaRow0, SigmaRow1, SigmaRow2, SigmaRow3, SigmaRow4,
    SigmaRow5, SigmaRow6, SigmaRow7, SigmaRow8, SigmaRow9
  ]

  predicate IsPermutation16(row: SigmaRow) {
    forall i, j :: 0 <= i < j < 16 ==> row[i] != row[j]
  }

  lemma Row0IsPermutation() ensures IsPermutation16(SigmaRow0) {}
  lemma Row1IsPermutation() ensures IsPermutation16(SigmaRow1) {}
  lemma Row2IsPermutation() ensures IsPermutation16(SigmaRow2) {}
  lemma Row3IsPermutation() ensures IsPermutation16(SigmaRow3) {}
  lemma Row4IsPermutation() ensures IsPermutation16(SigmaRow4) {}
  lemma Row5IsPermutation() ensures IsPermutation16(SigmaRow5) {}
  lemma Row6IsPermutation() ensures IsPermutation16(SigmaRow6) {}
  lemma Row7IsPermutation() ensures IsPermutation16(SigmaRow7) {}
  lemma Row8IsPermutation() ensures IsPermutation16(SigmaRow8) {}
  lemma Row9IsPermutation() ensures IsPermutation16(SigmaRow9) {}

  /** Every row of the table is a permutation of 0..15: the 16 message words are
      each used exactly once per round. */
  lemma SigmaRowsArePermutations(r: nat)
    requires r < |Sigma|
    ensures IsPermutation16(Sigma[r])
  {
    if r == 0 { Row0IsPermutation(); }
    else if r == 1 { Row1IsPermutation(); }
    else if r == 2 { Row2IsPermutation(); }
    else if r == 3 { Row3IsPermutation(); }
    else if r == 4 { Row4IsPermutation(); }
    else if r == 5 { Row5IsPermutation(); }
    else if r == 6 { Row6IsPermutation(); }
    else if r == 7 { Row7IsPermutation(); }
    else if r == 8 { Row8IsPermutation(); }
    else { Row9IsPermutation(); }
  }

  // ---------------------------------------------------------------------------
  // Little-endian words (Go's binary.LittleEndian.Uint32 / PutUint32).

  /** The 32-bit word whose little-endian encoding is `b`. */
  function LoadLE(b: seq<bv8>): bv32
    requires |b| == 4
  {
    (b[0] as bv32) | (b[1] as bv32 << 8) | (b[2] as bv32 << 16) | (b[3] as bv32 << 24)
  }

  /** The 4-byte little-endian encoding of `w`, least significant byte first. */
  function StoreLE(w: bv32): (r: seq<bv8>)
    ensures |r| == 4
  {
    [(w & 0xff) as bv8, ((w >> 8) & 0xff) as bv8, ((w >> 16) & 0xff) as bv8,
     ((w >> 24) & 0xff) as bv8]
  }

  lemma LoadStore(w: bv32)
    ensures LoadLE(StoreLE(w)) == w
  {
  }

  lemma StoreLoad(b: seq<bv8>)
    requires |b| == 4
    ensures StoreLE(LoadLE(b)) == b
  {
  }

  /** The little-endian serialisation of a sequence of words, in order. */
  function Encode(h: seq<bv32>): (r: seq<bv8>)
    ensures |r| == 4 * |h|
  {
    if |h| == 0 then [] else Encode(h[..|h| - 1]) + StoreLE(h[|h| - 1])
  }

  /** Each 4-byte group of the serialisation decodes back to its word. */
  lemma {:induction false} EncodeDecodes(h: seq<bv32>, i: nat)
    requires i < |h|
    ensures Encode(h)[4 * i..4 * i + 4] == StoreLE(h[i])
    ensures LoadLE(Encode(h)[4 * i..4 * i + 4]) == h[i]
  {
    var n := |h| - 1;
    var e := Encode(h[..n]);
    assert Encode(h) == e + StoreLE(h[n]);
    if i < n {
      EncodeDecodes(h[..n], i);
      assert Encode(h)[4 * i..4 * i + 4] == e[4 * i..4 * i + 4];
    } else {
      assert Encode(h)[4 * i..4 * i + 4] == StoreLE(h[n]);
    }
    LoadStore(h[i]);
  }


  // ---------------------------------------------------------------------------
  // Sixteen-word vectors: the work vector `v` and the message block `m` of
  // `compress` (both `[16]uint32` locals there), held as values.

  type Words16 = s: seq<bv32> | |s| == 16
    witness [0, 0, 0, 0, 0, 0, 0, 0, 0, 0, 0, 0, 0, 0, 0, 0]

  /** The chaining value `h` (`[8]uint32`). */
  type Chain = s: seq<bv32> | |s| == 8 witness [0, 0, 0, 0, 0, 0, 0, 0]

  /** The flags `f` (`[2]uint32`). */
  type Pair = s: seq<bv32> | |s| == 2 witness [0, 0]

  /** The byte counter `t` (`[2]uint32`), low word first. */
  type Counter = s: seq<Uint32> | |s| == 2 witness [0, 0]

  /** The 16 message words of a block: word i is bytes 4i..4i+4 read little-endian
      (the first loop of `compress`). */
  function MessageWords(block: seq<bv8>): (m: Words16)
    requires |block| >= BlockBytes
  {
    seq(16, (i: int) requires 0 <= i < 16 => LoadLE(block[4 * i..4 * i + 4]))
  }

  /** `compress` reads nothing of the buffer beyond its first block. */
  lemma MessageWordsReadFirstBlock(a: seq<bv8>, b: seq<bv8>)
    requires |a| >= BlockBytes && |b| >= BlockBytes && a[..BlockBytes] == b[..BlockBytes]
    ensures MessageWords(a) == MessageWords(b)
  {
    forall k | 0 <= k < BlockBytes ensures a[k] == b[k] {
      assert a[k] == a[..BlockBytes][k];
    }
    forall i | 0 <= i < 16 ensures MessageWords(a)[i] == MessageWords(b)[i] {
      assert a[4 * i..4 * i + 4] == b[4 * i..4 * i + 4];
    }
  }

  /** Each message word re-encodes to its 4 bytes of the block. */
  lemma MessageWordsEncodeBlock(block: seq<bv8>, i: Index16)
    requires |block| >= BlockBytes
    ensures StoreLE(MessageWords(block)[i]) == block[4 * i..4 * i + 4]
  {
    StoreLoad(block[4 * i..4 * i + 4]);
  }

  // ---------------------------------------------------------------------------
  // Word operations, G and F.

  /** uint32 addition, wrapping modulo 2^32. */
  function Add(x: bv32, y: bv32): bv32 { x + y }

  function Xor(x: bv32, y: bv32): bv32 { x ^ y }

  /** Go's `rotr32` closure: `(w >> c) | (w << (32 - c))` with `c` a uint32,
      where a shift by 32 or more yields 0 (for c > 32 the subtraction wraps to a
      huge shift count). */
  function Rotr32(w: bv32, c: bv32): bv32
  {
    if c > 32 then 0 else (w >> c) | (w << (32 - c))
  }

  /** For the four rotation distances G uses, `rotr32` is rotation to the right. */
  lemma Rotr32IsRotation(w: bv32)
    ensures Rotr32(w, 16) == w.RotateRight(16)
    ensures Rotr32(w, 12) == w.RotateRight(12)
    ensures Rotr32(w, 8) == w.RotateRight(8)
    ensures Rotr32(w, 7) == w.RotateRight(7)
  {
  }

  /** Go's `G` closure (RFC 7693 section 3.1 with rotations 16, 12, 8, 7): the
      eight assignments to v[a], v[d], v[c], v[b], with message words x and y. */
  function G(v: Words16, a: Index16, b: Index16, c: Index16, d: Index16, x: bv32, y: bv32): Words16
  {
    var v1 := v[a := Add(Add(v[a], v[b]), x)];
    var v2 := v1[d := Rotr32(Xor(v1[d], v1[a]), 16)];
    var v3 := v2[c := Add(v2[c], v2[d])];
    var v4 := v3[b := Rotr32(Xor(v3[b], v3[c]), 12)];
    var v5 := v4[a := Add(Add(v4[a], v4[b]), y)];
    var v6 := v5[d := Rotr32(Xor(v5[d], v5[a]), 8)];
    var v7 := v6[c := Add(v6[c], v6[d])];
    v7[b := Rotr32(Xor(v7[b], v7[c]), 7)]
  }

  /** The arguments (a, b, c, d) of the i-th G call of a round: the four columns,
      then the four diagonals. */
  datatype Quad = Quad(a: Index16, b: Index16, c: Index16, d: Index16)

  function Position(i: nat): Quad
    requires i < 8
  {
    match i
    case 0 => Quad(0, 4, 8, 12)
    case 1 => Quad(1, 5, 9, 13)
    case 2 => Quad(2, 6, 10, 14)
    case 3 => Quad(3, 7, 11, 15)
    case 4 => Quad(0, 5, 10, 15)
    case 5 => Quad(1, 6, 11, 12)
    case 6 => Quad(2, 7, 8, 13)
    case _ => Quad(3, 4, 9, 14)
  }

  /** The message words in the order a round consumes them: word k of the result
      is m[s[k]], so the i-th G call of the round takes words 2i and 2i + 1. */
  function Schedule(m: Words16, s: SigmaRow): Words16
  {
    seq(16, (k: int) requires 0 <= k < 16 => m[s[k]])
  }

  /** The i-th G call of a round whose scheduled message words are x. */
  function MixStep(v: Words16, x: Words16, i: nat): Words16
    requires i < 8
  {
    var q := Position(i);
    G(v, q.a, q.b, q.c, q.d, x[2 * i], x[2 * i + 1])
  }

  /** The first n G calls of a round. */
  function Mix(v: Words16, x: Words16, n: nat): Words16
    requires n <= 8
  {
    if n == 0 then v else MixStep(Mix(v, x, n - 1), x, n - 1)
  }

  /** One round: G on the four columns, then on the four diagonals. */
  function Round(v: Words16, x: Words16): Words16
  {
    Mix(v, x, 8)
  }

  /** The first n rounds, round i using row i of the table. */
  function RoundsFrom(v: Words16, m: Words16, n: nat): Words16
    requires n <= Rounds
  {
    if n == 0 then v else Round(RoundsFrom(v, m, n - 1), Schedule(m, Sigma[n - 1]))
  }

  /** The RFC's right rotation `>>>` of a word. */
  function RotateRight(w: bv32, n: nat): bv32
    requires n < 32
  {
    w.RotateRight(n)
  }

  /** G as RFC 7693 section 3.1 writes it for BLAKE2s: additions modulo 2^32 and
      rotations to the right by R1..R4 = 16, 12, 8, 7. */
  function RfcG(v: Words16, a: Index16, b: Index16, c: Index16, d: Index16, x: bv32, y: bv32): Words16
  {
    var v1 := v[a := Add(Add(v[a], v[b]), x)];
    var v2 := v1[d := RotateRight(Xor(v1[d], v1[a]), 16)];
    var v3 := v2[c := Add(v2[c], v2[d])];
    var v4 := v3[b := RotateRight(Xor(v3[b], v3[c]), 12)];
    var v5 := v4[a := Add(Add(v4[a], v4[b]), y)];
    var v6 := v5[d := RotateRight(Xor(v5[d], v5[a]), 8)];
    var v7 := v6[c := Add(v6[c], v6[d])];
    v7[b := RotateRight(Xor(v7[b], v7[c]), 7)]
  }

  /** The (a, b, c, d) arguments of the eight G calls of a round in RFC 7693
      section 3.2: the four columns, then the four diagonals. */
  const RfcQuads: seq<Quad> := [
    Quad(0, 4, 8, 12), Quad(1, 5, 9, 13), Quad(2, 6, 10, 14), Quad(3, 7, 11, 15),
    Quad(0, 5, 10, 15), Quad(1, 6, 11, 12), Quad(2, 7, 8, 13), Quad(3, 4, 9, 14)]

  /** The first n G calls of an RFC round with message schedule s: call i takes
      m[s[2i]] and m[s[2i + 1]]. */
  function RfcMix(v: Words16, m: Words16, s: SigmaRow, n: nat): Words16
    requires n <= 8
  {
    if n == 0 then v
    else
      var q := RfcQuads[n - 1];
      RfcG(RfcMix(v, m, s, n - 1), q.a, q.b, q.c, q.d, m[s[2 * (n - 1)]], m[s[2 * (n - 1) + 1]])
  }

  /** One round of RFC 7693 section 3.2 with message schedule s. */
  function RfcRound(v: Words16, m: Words16, s: SigmaRow): Words16
  {
    RfcMix(v, m, s, 8)
  }

  /** The first n rounds as RFC 7693 section 3.2 writes them: round i uses
      SIGMA[i mod 10] of the 10-row schedule, which for the ten rounds of BLAKE2s
      is SIGMA[i]. */
  function RfcRounds(v: Words16, m: Words16, n: nat): Words16
    requires n <= Rounds
  {
    if n == 0 then v else RfcRound(RfcRounds(v, m, n - 1), m, Sigma[n - 1])
  }

  /** Go's rotations by 16, 12, 8 and 7 are the RFC's, for every word. */
  lemma RotationsAgree()
    ensures forall w: bv32 {:trigger Rotr32(w, 16)} :: Rotr32(w, 16) == RotateRight(w, 16)
    ensures forall w: bv32 {:trigger Rotr32(w, 12)} :: Rotr32(w, 12) == RotateRight(w, 12)
    ensures forall w: bv32 {:trigger Rotr32(w, 8)} :: Rotr32(w, 8) == RotateRight(w, 8)
    ensures forall w: bv32 {:trigger Rotr32(w, 7)} :: Rotr32(w, 7) == RotateRight(w, 7)
  {
    forall w: bv32 ensures Rotr32(w, 16) == RotateRight(w, 16) && Rotr32(w, 12) == RotateRight(w, 12)
      && Rotr32(w, 8) == RotateRight(w, 8) && Rotr32(w, 7) == RotateRight(w, 7)
    {
      Rotr32IsRotation(w);
    }
  }

  /** Go's G, with its shift-expression rotations, is the RFC's G. */
  lemma GMatchesRfc(v: Words16, a: Index16, b: Index16, c: Index16, d: Index16, x: bv32, y: bv32)
    ensures G(v, a, b, c, d, x, y) == RfcG(v, a, b, c, d, x, y)
  {
    RotationsAgree();
  }

  /** The i-th G call of a round of `compress` (Position and Schedule) is the
      RFC's i-th call. */
  lemma MixStepMatchesRfc(w: Words16, m: Words16, s: SigmaRow, k: nat)
    requires k < 8
    ensures var q := RfcQuads[k];
      MixStep(w, Schedule(m, s), k) == RfcG(w, q.a, q.b, q.c, q.d, m[s[2 * k]], m[s[2 * k + 1]])
  {
    var q := Position(k);
    assert q == RfcQuads[k];
    GMatchesRfc(w, q.a, q.b, q.c, q.d, m[s[2 * k]], m[s[2 * k + 1]]);
  }

  /** The first n G calls of a round of `compress` are those of the RFC's round. */
  lemma {:induction false} MixMatchesRfc(v: Words16, m: Words16, s: SigmaRow, n: nat)
    requires n <= 8
    ensures Mix(v, Schedule(m, s), n) == RfcMix(v, m, s, n)
  {
    if n > 0 {
      MixMatchesRfc(v, m, s, n - 1);
      MixStepMatchesRfc(Mix(v, Schedule(m, s), n - 1), m, s, n - 1);
    }
  }

  /** The ten rounds of `compress` are the RFC's rounds. */
  lemma {:induction false} RoundsMatchRfc(v: Words16, m: Words16, n: nat)
    requires n <= Rounds
    ensures RoundsFrom(v, m, n) == RfcRounds(v, m, n)
  {
    if n > 0 {
      RoundsMatchRfc(v, m, n - 1);
      MixMatchesRfc(RoundsFrom(v, m, n - 1), m, Sigma[n - 1], 8);
    }
  }

  /** A counter word as the uint32 Go stores. */
  function CounterWord(x: Uint32): bv32 { x as bv32 }

  /** The work vector at the start of F (RFC 7693 section 3.2): the chaining value,
      the first half of IV, and the second half of IV mixed with counter and flags. */
  function InitialWork(h: Chain, t: Counter, f: Pair): Words16
  {
    h + IV[..4] + [Xor(CounterWord(t[0]), IV[4]), Xor(CounterWord(t[1]), IV[5]),
                   Xor(f[0], IV[6]), Xor(f[1], IV[7])]
  }

  /** The feed-forward h[i] ^ v[i] ^ v[i + 8] that ends F. */
  function FeedForward(h: Chain, v: Words16): Chain
  {
    seq(8, (i: int) requires 0 <= i < 8 => Xor(Xor(h[i], v[i]), v[i + 8]))
  }

  /** The compression function F of `compress`: word i of the new chaining value
      is h[i] ^ v[i] ^ v[i + 8], v being the work vector after the ten rounds.
      The rounds sit inside the word-by-word definition, so that facts about
      the digest that do not look at individual chaining words never expand them. */
  function F(h: Chain, m: Words16, t: Counter, f: Pair): Chain
  {
    seq(8, (i: int) requires 0 <= i < 8 =>
      var v := RoundsFrom(InitialWork(h, t, f), m, Rounds);
      Xor(Xor(h[i], v[i]), v[i + 8]))
  }

  /** F is the feed-forward of the work vector after the rounds. */
  lemma FIsFeedForward(h: Chain, m: Words16, t: Counter, f: Pair)
    ensures F(h, m, t, f) == FeedForward(h, RoundsFrom(InitialWork(h, t, f), m, Rounds))
  {
  }

  /** A 64-bit byte count, the RFC's t. */
  type Uint64 = x: int | 0 <= x < WordModulus * WordModulus

  /** The work vector at the start of the RFC's F: v[0..7] = h, v[8..15] = IV,
      then v[12] ^= t mod 2^32, v[13] ^= t >> 32, and v[14] inverted for the last
      block. */
  function RfcInitialWork(h: Chain, t: Uint64, last: bool): Words16
  {
    var lo := (t % WordModulus) as bv32;
    var hi := (t / WordModulus) as bv32;
    h + IV[..4] + [IV[4] ^ lo, IV[5] ^ hi, if last then IV[6] ^ AllOnes else IV[6], IV[7]]
  }

  /** F as RFC 7693 section 3.2 defines it, with the 64-bit count t and the
      last-block flag; its last step h[i] := h[i] ^ v[i] ^ v[i + 8] is FeedForward. */
  function RfcF(h: Chain, m: Words16, t: Uint64, last: bool): Chain
  {
    FeedForward(h, RfcRounds(RfcInitialWork(h, t, last), m, Rounds))
  }

  /** The counter words and flag words `compress` receives for the RFC's count t
      and last-block flag; Go never sets the last-node flag f[1]. */
  function SplitCount(t: Uint64): Counter {
    [t % WordModulus, t / WordModulus]
  }

  function LastFlags(last: bool): Pair {
    [if last then AllOnes else 0, 0]
  }

  lemma XorCommutes(x: bv32, y: bv32)
    ensures Xor(x, y) == y ^ x
  {
  }

  /** Go's flag word f[0] ^ iv[k], with f[0] all ones or zero, is the RFC's
      conditional inversion. */
  lemma FlagWord(x: bv32, last: bool)
    ensures Xor(if last then AllOnes else 0, x) == if last then x ^ AllOnes else x
  {
    if last {
      XorCommutes(AllOnes, x);
    } else {
      assert Xor(0, x) == x;
    }
  }

  /** The work vector `compress` starts from is the RFC's. */
  lemma InitialWorkMatchesRfc(h: Chain, t: Uint64, last: bool)
    ensures InitialWork(h, SplitCount(t), LastFlags(last)) == RfcInitialWork(h, t, last)
  {
    var lo := (t % WordModulus) as bv32;
    var hi := (t / WordModulus) as bv32;
    assert CounterWord(SplitCount(t)[0]) == lo;
    assert CounterWord(SplitCount(t)[1]) == hi;
    XorCommutes(lo, IV[4]);
    XorCommutes(hi, IV[5]);
    FlagWord(IV[6], last);
    FlagWord(IV[7], false);
  }

  /** `compress` computes the RFC's F on every block: same work vector, same
      rounds, same feed-forward. */
  lemma FMatchesRfc(h: Chain, m: Words16, t: Uint64, last: bool)
    ensures F(h, m, SplitCount(t), LastFlags(last)) == RfcF(h, m, t, last)
  {
    var iw := InitialWork(h, SplitCount(t), LastFlags(last));
    InitialWorkMatchesRfc(h, t, last);
    RoundsMatchRfc(iw, m, Rounds);
    FIsFeedForward(h, m, SplitCount(t), LastFlags(last));
  }

  // ---------------------------------------------------------------------------
  // The steps of `compress` that work on its local vectors.

  /** The first loop of `compress`: the message words loaded from `block`. */
  method LoadMessage(block: array<bv8>) returns (m: Words16)
    requires block.Length >= BlockBytes
    ensures m == MessageWords(block[..])
  {
    ghost var b := block[..];
    var words := new bv32[16];
    for i := 0 to 16
      invariant forall k :: 0 <= k < i ==> words[k] == LoadLE(b[4 * k..4 * k + 4])
    {
      assert block[4 * i..4 * i + 4] == b[4 * i..4 * i + 4];
      words[i] := LoadLE(block[4 * i..4 * i + 4]);
    }
    m := words[..];
    assert m == MessageWords(b);
  }

  /** The round loop of `compress`: 10 iterations, iteration r making the eight G
      calls of a round with the message words of schedule row sigma[r]. */
  method MixRounds(v0: Words16, m: Words16) returns (v: Words16)
    ensures v == RoundsFrom(v0, m, Rounds)
  {
    v := v0;
    for r := 0 to Rounds
      invariant v == RoundsFrom(v0, m, r)
    {
      v := Round(v, Schedule(m, Sigma[r]));
    }
  }

  /** The last loop of `compress`, in place: h[i] ^= v[i] ^ v[i + 8]. */
  method FeedForwardInto(h: array<bv32>, v: Words16)
    requires h.Length == 8
    modifies h
    ensures h[..] == FeedForward(old(h[..]), v)
  {
    ghost var h0 := h[..];
    for i := 0 to 8
      invariant forall k :: 0 <= k < i ==> h[k] == Xor(Xor(h0[k], v[k]), v[k + 8])
      invariant forall k :: i <= k < 8 ==> h[k] == h0[k]
    {
      h[i] := Xor(Xor(h[i], v[i]), v[i + 8]);
    }
  }
}
