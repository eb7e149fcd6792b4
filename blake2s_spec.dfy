/** The BLAKE2s digest of blake2s/blake2s.go as a state machine on values: the
    state of a `digest`, and what `incrementCounter`, `Reset`, `Write` and `Sum` do
    to it. The imperative class in module Blake2s is proved to follow these
    functions; the lemmas here state what the functions mean. */
module Blake2sSpec {
  import opened Bytes
  import opened Blake2sCompress

  /** A function with the signature of the compression function F. What `Write`
      and `Sum` do with the buffer, the counter and the flags does not depend on
      what the compression computes, so the functions below take it as a
      parameter and every lemma holds for all of them; the digest of module
      Blake2s passes F. */
  type Compressor = (Chain, Words16, Counter, Pair) -> Chain

  /** The fields of Go's `digest` other than `key`: chaining value, byte counter,
      finalisation flags, the two-block input buffer and its fill level. */
  datatype State = State(h: Chain, t: Counter, f: Pair, buf: seq<bv8>, buflen: int)

  /** The buffer length of the Go struct, and the bound on `buflen` every
      operation keeps. */
  predicate WellFormed(s: State) {
    |s.buf| == BufBytes && 0 <= s.buflen <= BufBytes
  }

  // ---------------------------------------------------------------------------
  // The byte counter.

  /** `incrementCounter(inc)`: t[0] += inc modulo 2^32 and, when that addition
      wraps (`t[0] < inc` afterwards), t[1] is DECREMENTED where RFC 7693 adds
      the carry. */
  function Incremented(t: Counter, inc: Uint32): (r: Counter)
    ensures r[0] == (t[0] + inc) % WordModulus
    ensures t[0] + inc < WordModulus ==> r[1] == t[1]
    ensures t[0] + inc >= WordModulus ==> r[1] == (t[1] + WordModulus - 1) % WordModulus
  {
    var t0 := (t[0] + inc) % WordModulus;
    [t0, if t0 < inc then (t[1] - 1) % WordModulus else t[1]]
  }

  /** The 64-bit byte count the two counter words stand for (RFC 7693 section 3.2). */
  function Counter64(t: Counter): int {
    t[1] * WordModulus + t[0]
  }

  /** The increment RFC 7693 intends: a carry out of t[0] goes into t[1]. */
  function RfcIncremented(t: Counter, inc: Uint32): Counter {
    var t0 := (t[0] + inc) % WordModulus;
    [t0, if t0 < inc then (t[1] + 1) % WordModulus else t[1]]
  }

  /** The intended increment adds inc to the 64-bit count, modulo 2^64. */
  lemma RfcIncrementAdds(t: Counter, inc: Uint32)
    ensures Counter64(RfcIncremented(t, inc)) == (Counter64(t) + inc) % (WordModulus * WordModulus)
  {
    var r := RfcIncremented(t, inc);
    if t[0] + inc < WordModulus {
      assert r[0] == t[0] + inc && r[1] == t[1];
    } else {
      assert r[0] == t[0] + inc - WordModulus;
      if t[1] == WordModulus - 1 {
        assert r[1] == 0;
      } else {
        assert r[1] == t[1] + 1;
      }
    }
  }

  /** Without a carry Go's increment is the intended one. */
  lemma IncrementMatchesRfcWithoutCarry(t: Counter, inc: Uint32)
    requires t[0] + inc < WordModulus
    ensures Incremented(t, inc) == RfcIncremented(t, inc)
    ensures Counter64(Incremented(t, inc)) == Counter64(t) + inc
  {
  }

  /** With a carry Go's increment lands 2 * 2^32 below the intended count. */
  lemma IncrementBorrowsOnCarry(t: Counter, inc: Uint32)
    requires t[0] + inc >= WordModulus
    ensures Counter64(Incremented(t, inc))
      == (Counter64(t) + inc + WordModulus * WordModulus - 2 * WordModulus) % (WordModulus * WordModulus)
  {
    var r := Incremented(t, inc);
    assert r[0] == t[0] + inc - WordModulus;
    if t[1] == 0 {
      assert r[1] == WordModulus - 1;
    } else {
      assert r[1] == t[1] - 1;
    }
  }

  /** The smallest input that shows it: one more byte after 2^32 - 1 bytes. */
  lemma IncrementCarryExample()
    ensures Incremented([WordModulus - 1, 0], 1) == [0, WordModulus - 1]
    ensures RfcIncremented([WordModulus - 1, 0], 1) == [0, 1]
  {
  }


  // ---------------------------------------------------------------------------
  // The steps of `Write`.

  /** `fill := 2*BlockSize - left`: the free room in the buffer. */
  function Fill(s: State): int {
    BufBytes - s.buflen
  }

  /** The first two statements of the branch of `Write` taken when more input
      remains than fits: `copy(d.buf[left:], chunk)` and `d.buflen += fill`. */
  function FillBuffer(s: State, chunk: seq<bv8>): (r: State)
    requires WellFormed(s)
    ensures WellFormed(r) && r.buflen == BufBytes
  {
    s.(buf := Copy(s.buf, s.buflen, BufBytes, chunk), buflen := BufBytes)
  }

  /** The rest of that branch, on a full buffer: count a block, compress the first
      half of the buffer, move the second half down and drop one block. */
  function CompressFull(c: Compressor, s: State): (r: State)
    requires WellFormed(s) && s.buflen == BufBytes
    ensures WellFormed(r) && r.buflen == BlockBytes && r.f == s.f
  {
    var t := Incremented(s.t, BlockBytes);
    s.(h := c(s.h, MessageWords(s.buf), t, s.f), t := t,
       buf := Copy(s.buf, 0, BlockBytes, s.buf[BlockBytes..]), buflen := BlockBytes)
  }

  /** The branch of `Write` taken when the rest of the input fits: it is copied in
      behind the buffered bytes. */
  function Append(s: State, chunk: seq<bv8>): (r: State)
    requires WellFormed(s) && |chunk| <= Fill(s)
    ensures WellFormed(r) && r.buflen == s.buflen + |chunk|
  {
    s.(buf := Copy(s.buf, s.buflen, BufBytes, chunk), buflen := s.buflen + |chunk|)
  }

  /** How a call of `Write` ends: it returns, or the slice expression
      `buf[offset:fill]` panics because offset > fill. Either way `s` is the state
      the digest is left in (a panic strikes before that iteration changes
      anything). */
  datatype Outcome = Completed(s: State) | Panicked(s: State)

  /** The loop of `Write` from the point where `offset` bytes of `data` have been
      consumed and `inlen` remain, exactly as written: the full-buffer branch copies
      `buf[offset:fill]`, which panics when offset > fill and otherwise holds only
      fill - offset bytes although `buflen` still grows by fill. */
  function WriteLoop(c: Compressor, s: State, data: seq<bv8>, offset: nat, inlen: nat): (r: Outcome)
    requires WellFormed(s) && offset + inlen == |data|
    ensures WellFormed(r.s) && r.s.f == s.f
    decreases inlen, s.buflen
  {
    if inlen == 0 then Completed(s)
    else if inlen > Fill(s) then
      var fill := Fill(s);
      if offset > fill then Panicked(s)
      else WriteLoop(c, CompressFull(c, FillBuffer(s, data[offset..fill])), data, offset + fill, inlen - fill)
    else
      Completed(Append(s, data[offset..]))
  }

  /** Where one iteration of the loop of `Write` that does not panic leaves the
      state, the offset and the remaining length. */
  datatype Progress = Progress(s: State, offset: nat, inlen: nat)

  /** One iteration of that loop, as written, when its slice is in range. */
  function WriteIteration(c: Compressor, s: State, data: seq<bv8>, offset: nat, inlen: nat): (r: Progress)
    requires WellFormed(s) && offset + inlen == |data| && inlen > 0
    requires inlen > Fill(s) ==> offset <= Fill(s)
    ensures WellFormed(r.s) && r.offset + r.inlen == |data|
    ensures r.inlen < inlen || (r.inlen == inlen && r.s.buflen < s.buflen)
  {
    if inlen > Fill(s) then
      Progress(CompressFull(c, FillBuffer(s, data[offset..Fill(s)])), offset + Fill(s), inlen - Fill(s))
    else
      Progress(Append(s, data[offset..]), offset + inlen, 0)
  }

  /** A loop whose slice is in range is its first iteration followed by the rest
      of the loop. */
  lemma WriteLoopIteration(c: Compressor, s: State, data: seq<bv8>, offset: nat, inlen: nat)
    requires WellFormed(s) && offset + inlen == |data| && inlen > 0
    requires inlen > Fill(s) ==> offset <= Fill(s)
    ensures var p := WriteIteration(c, s, data, offset, inlen);
      WriteLoop(c, s, data, offset, inlen) == WriteLoop(c, p.s, data, p.offset, p.inlen)
  {
    if inlen <= Fill(s) {
      assert WriteLoop(c, Append(s, data[offset..]), data, offset + inlen, 0) == Completed(Append(s, data[offset..]));
    }
  }

  /** `Write(data)` on state s. */
  function Write(c: Compressor, s: State, data: seq<bv8>): (r: Outcome)
    requires WellFormed(s)
    ensures WellFormed(r.s)
  {
    WriteLoop(c, s, data, 0, |data|)
  }

  /** Write with the copy in the full-buffer branch taken as
      `buf[offset:offset+fill]`, from the current offset as the else branch at
      blake2s.go:168 already does. It is not what the full-buffer branch of
      blake2s.go does; it is the reference the defect is measured against. */
  function WriteFixed(c: Compressor, s: State, data: seq<bv8>): (r: State)
    requires WellFormed(s)
    ensures WellFormed(r)
    decreases |data|, s.buflen
  {
    if |data| == 0 then s
    else if |data| > Fill(s) then
      WriteFixed(c, CompressFull(c, FillBuffer(s, data[..Fill(s)])), data[Fill(s)..])
    else
      Append(s, data)
  }

  /** When Write panics, for a buffer holding b bytes and n input bytes: the
      second full-buffer iteration starts at offset 2 * BlockSize - b and panics
      when b < BlockSize; the third starts at 3 * BlockSize - b and panics when
      b < 2 * BlockSize; a fourth always panics. */
  predicate Panics(b: int, n: int) {
    (b < BlockBytes && n + b > 3 * BlockBytes)
    || (n + b > 4 * BlockBytes && (b < BufBytes || n + b > 5 * BlockBytes))
  }

  /** Write panics exactly under that condition. */
  lemma WritePanicsIff(c: Compressor, s: State, data: seq<bv8>)
    requires WellFormed(s)
    ensures Write(c, s, data).Panicked? <==> Panics(s.buflen, |data|)
  {
    var b, n := s.buflen, |data|;
    var fill := Fill(s);
    if n > fill {
      var s1 := CompressFull(c, FillBuffer(s, data[..fill]));
      assert Write(c, s, data) == WriteLoop(c, s1, data, fill, n - fill);
      if n - fill > BlockBytes && fill <= BlockBytes {
        var s2 := CompressFull(c, FillBuffer(s1, data[fill..BlockBytes]));
        assert WriteLoop(c, s1, data, fill, n - fill)
          == WriteLoop(c, s2, data, fill + BlockBytes, n - fill - BlockBytes);
        if n - fill > 2 * BlockBytes && fill == 0 {
          var s3 := CompressFull(c, FillBuffer(s2, data[BlockBytes..BlockBytes]));
          assert WriteLoop(c, s2, data, BlockBytes, n - BlockBytes)
            == WriteLoop(c, s3, data, 2 * BlockBytes, n - 2 * BlockBytes);
        }
      }
    }
  }

  /** The smallest panic from an empty buffer: one call of 193 bytes. Writing
      the same bytes one block at a time never panics. */
  lemma WritePanicExample(c: Compressor, s: State, data: seq<bv8>)
    requires WellFormed(s) && s.buflen == 0 && |data| == 3 * BlockBytes + 1
    ensures Write(c, s, data).Panicked?
    ensures forall s', d :: WellFormed(s') && |d| <= BlockBytes ==> Write(c, s', d).Completed?
  {
    WritePanicsIff(c, s, data);
    forall s', d | WellFormed(s') && |d| <= BlockBytes ensures Write(c, s', d).Completed? {
      WritePanicsIff(c, s', d);
    }
  }

  /** The fill level after absorbing `len` bytes into a buffer holding `b`: the
      buffer is compressed only when more input follows, so a non-empty Write
      leaves between 1 and 2 * BlockSize bytes, and more than one block once a
      compression has happened. */
  function AbsorbLen(b: int, len: nat): int {
    if len <= BufBytes - b then b + len
    else BlockBytes + 1 + (len - (BufBytes - b) - 1) % BlockBytes
  }

  /** One full-buffer step: absorbing len bytes into b is absorbing the rest into
      the one block the step leaves. */
  lemma AbsorbLenStep(b: int, len: nat)
    requires 0 <= b <= BufBytes && len > BufBytes - b
    ensures AbsorbLen(b, len) == AbsorbLen(BlockBytes, len - (BufBytes - b))
  {
    var n := len - (BufBytes - b);
    if n > BlockBytes {
      assert n - 1 == (n - BlockBytes - 1) + BlockBytes;
    }
  }

  lemma {:induction false} WriteLoopBuflen(c: Compressor, s: State, data: seq<bv8>, offset: nat, inlen: nat)
    requires WellFormed(s) && offset + inlen == |data|
    ensures var r := WriteLoop(c, s, data, offset, inlen);
      r.Completed? ==> r.s.buflen == AbsorbLen(s.buflen, inlen)
    decreases inlen, s.buflen
  {
    var fill := Fill(s);
    if inlen > fill && offset <= fill {
      var s' := CompressFull(c, FillBuffer(s, data[offset..fill]));
      WriteLoopBuflen(c, s', data, offset + fill, inlen - fill);
      AbsorbLenStep(s.buflen, inlen);
    }
  }

  /** The buffer bounds a Write that returns keeps: the fill level afterwards
      depends only on the level before and the input length; it is positive after
      a non-empty Write, and above one block after a Write that compressed. */
  lemma WriteBuflen(c: Compressor, s: State, data: seq<bv8>)
    requires WellFormed(s) && Write(c, s, data).Completed?
    ensures Write(c, s, data).s.buflen == AbsorbLen(s.buflen, |data|)
    ensures |data| > 0 ==> Write(c, s, data).s.buflen > 0
    ensures |data| > Fill(s) ==> BlockBytes < Write(c, s, data).s.buflen <= BufBytes
  {
    WriteLoopBuflen(c, s, data, 0, |data|);
  }

  /** Write compresses nothing while the input fits in the buffer: it only appends. */
  lemma WriteBuffersWhatFits(c: Compressor, s: State, data: seq<bv8>)
    requires WellFormed(s) && |data| <= Fill(s)
    ensures Write(c, s, data).Completed?
    ensures Write(c, s, data).s.h == s.h && Write(c, s, data).s.t == s.t
    ensures Write(c, s, data).s.buflen == s.buflen + |data|
    ensures Write(c, s, data).s.buf == Copy(s.buf, s.buflen, BufBytes, data)
  {
    if |data| > 0 {
      assert data[0..] == data;
    }
  }

  /** One full-buffer step compresses one block and leaves one block buffered:
      t[0] + buflen grows by BlockSize, less 2^32 exactly when t[0] wraps. */
  lemma CompressFullCounts(c: Compressor, s: State, chunk: seq<bv8>)
    requires WellFormed(s)
    ensures var q := CompressFull(c, FillBuffer(s, chunk));
      (s.t[0] + BlockBytes < WordModulus ==> q.t[0] + q.buflen == s.t[0] + BufBytes)
      && (s.t[0] + BlockBytes >= WordModulus ==> q.t[0] + q.buflen == s.t[0] + BufBytes - WordModulus)
  {
  }

  lemma ModMinusModulus(x: int)
    ensures (x - WordModulus) % WordModulus == x % WordModulus
  {
  }

  lemma {:induction false} WriteLoopAccounts(c: Compressor, s: State, data: seq<bv8>, offset: nat, inlen: nat)
    requires WellFormed(s) && offset + inlen == |data|
    ensures var r := WriteLoop(c, s, data, offset, inlen);
      r.Completed? ==> (r.s.t[0] + r.s.buflen) % WordModulus == (s.t[0] + s.buflen + inlen) % WordModulus
    decreases inlen, s.buflen
  {
    var fill := Fill(s);
    if inlen > fill && offset <= fill {
      var s' := CompressFull(c, FillBuffer(s, data[offset..fill]));
      WriteLoopAccounts(c, s', data, offset + fill, inlen - fill);
      CompressFullCounts(c, s, data[offset..fill]);
      if s'.t[0] + s'.buflen != s.t[0] + BufBytes {
        ModMinusModulus(s.t[0] + s.buflen + inlen);
      }
    }
  }

  /** Length accounting: a Write that returns grows the counter plus the buffered
      bytes by exactly the number of bytes written, modulo 2^32, although the
      bytes it holds need not be the ones written. The flags are untouched. */
  lemma WriteAccounts(c: Compressor, s: State, data: seq<bv8>)
    requires WellFormed(s)
    ensures Write(c, s, data).Completed? ==>
      (Write(c, s, data).s.t[0] + Write(c, s, data).s.buflen) % WordModulus
      == (s.t[0] + s.buflen + |data|) % WordModulus
    ensures Write(c, s, data).s.f == s.f
  {
    WriteLoopAccounts(c, s, data, 0, |data|);
  }

  /** The reference Write is a streaming absorber: writing a and then b is writing a + b. */
  lemma {:induction false} WriteFixedStreams(c: Compressor, s: State, a: seq<bv8>, b: seq<bv8>)
    requires WellFormed(s)
    ensures WriteFixed(c, WriteFixed(c, s, a), b) == WriteFixed(c, s, a + b)
    decreases |a|, s.buflen
  {
    var fill := Fill(s);
    if |a| == 0 {
      assert a + b == b;
    } else if |a| > fill {
      var s' := CompressFull(c, FillBuffer(s, a[..fill]));
      assert (a + b)[..fill] == a[..fill];
      assert (a + b)[fill..] == a[fill..] + b;
      WriteFixedStreams(c, s', a[fill..], b);
    } else {
      var s1 := Append(s, a);
      var fill' := Fill(s1);
      CopyTwice(s.buf, s.buflen, BufBytes, a, if |b| > fill' then b[..fill'] else b);
      if |b| == 0 {
        assert a + b == a;
      } else if |b| > fill' {
        assert (a + b)[..fill] == a + b[..fill'];
        assert (a + b)[fill..] == b[fill'..];
      }
    }
  }

  /** Write as written agrees with the reference, and returns, while the
      full-buffer branch runs at most once: for every Write of at most
      `Fill(s) + BlockSize` bytes. */
  lemma WriteAgreesWithFixed(c: Compressor, s: State, data: seq<bv8>)
    requires WellFormed(s) && |data| <= Fill(s) + BlockBytes
    ensures Write(c, s, data) == Completed(WriteFixed(c, s, data))
  {
    var fill := Fill(s);
    if 0 < |data| <= fill {
      assert data[0..] == data;
    } else if |data| > fill {
      var s' := CompressFull(c, FillBuffer(s, data[..fill]));
      assert Write(c, s, data) == WriteLoop(c, s', data, fill, |data| - fill);
      assert WriteLoop(c, s', data, fill, |data| - fill) == Completed(Append(s', data[fill..]));
      assert WriteFixed(c, s, data) == WriteFixed(c, s', data[fill..]);
    }
  }

  /** The defect when Write does not panic: after a buffer holding one block takes
      129 bytes, the buffer should start with byte 64 of the input but starts with
      byte 0. The second full-buffer copy `buf[64:64]` is empty, so input bytes
      64..128 are never absorbed and the first 64 are compressed twice. */
  lemma WriteDropsInput(c: Compressor, s: State, data: seq<bv8>)
    requires WellFormed(s) && s.buflen == BlockBytes && |data| == 2 * BlockBytes + 1
    ensures Write(c, s, data).Completed? && Write(c, s, data).s.buf[0] == data[0]
    ensures WriteFixed(c, s, data).buf[0] == data[BlockBytes]
  {
    var s1 := CompressFull(c, FillBuffer(s, data[..BlockBytes]));
    var s2 := CompressFull(c, FillBuffer(s1, data[BlockBytes..BlockBytes]));
    assert Write(c, s, data) == WriteLoop(c, s1, data, BlockBytes, BlockBytes + 1);
    assert WriteLoop(c, s1, data, BlockBytes, BlockBytes + 1) == WriteLoop(c, s2, data, 2 * BlockBytes, 1);
    assert WriteLoop(c, s2, data, 2 * BlockBytes, 1) == Completed(Append(s2, data[2 * BlockBytes..]));
    var u2 := CompressFull(c, FillBuffer(s1, data[BlockBytes..][..BlockBytes]));
    assert WriteFixed(c, s, data) == WriteFixed(c, s1, data[BlockBytes..]);
    assert WriteFixed(c, s1, data[BlockBytes..]) == WriteFixed(c, u2, data[BlockBytes..][BlockBytes..]);
    assert WriteFixed(c, u2, data[BlockBytes..][BlockBytes..]) == Append(u2, data[BlockBytes..][BlockBytes..]);
  }

  /** Consequently Go's Write is not a streaming absorber even where it returns:
      the same 129 bytes give a different state written in one call than in calls
      of 64 and 65 bytes. */
  lemma WriteDoesNotStream(c: Compressor, s: State, data: seq<bv8>)
    requires WellFormed(s) && s.buflen == BlockBytes && |data| == 2 * BlockBytes + 1
    requires data[0] != data[BlockBytes]
    ensures Write(c, s, data[..BlockBytes]).Completed?
    ensures var r := Write(c, s, data[..BlockBytes]).s;
      Write(c, r, data[BlockBytes..]).Completed?
      && Write(c, r, data[BlockBytes..]) != Write(c, s, data)
  {
    var a, b := data[..BlockBytes], data[BlockBytes..];
    WriteBuffersWhatFits(c, s, a);
    var r := Write(c, s, a).s;
    var r1 := CompressFull(c, FillBuffer(r, b[..0]));
    var r2 := CompressFull(c, FillBuffer(r1, b[..BlockBytes]));
    assert Write(c, r, b) == WriteLoop(c, r1, b, 0, BlockBytes + 1);
    assert WriteLoop(c, r1, b, 0, BlockBytes + 1) == WriteLoop(c, r2, b, BlockBytes, 1);
    assert WriteLoop(c, r2, b, BlockBytes, 1) == Completed(Append(r2, b[BlockBytes..]));
    assert Write(c, r, b).s.buf[0] == data[BlockBytes];
    WriteDropsInput(c, s, data);
  }

  // ---------------------------------------------------------------------------
  // Reset.

  /** `keylen`: the key length, silently truncated to KeySize. */
  function KeyLength(key: seq<bv8>): nat {
    Min(|key|, KeyBytes)
  }

  /** The parameter block `p`: digest length 32, key length, fanout 1, depth 1, and
      zeros (RFC 7693 section 2.5, sequential mode without salt or personalisation). */
  function ParamBlock(keylen: nat): (p: seq<bv8>)
    requires keylen <= KeyBytes
    ensures |p| == BlockBytes
  {
    [32, keylen as bv8, 1, 1] + Zeros(BlockBytes - 4)
  }

  /** `h[i] = iv[i] ^ LittleEndian.Uint32(p[i*4:])` for i < 8. */
  function ParamChain(p: seq<bv8>): Chain
    requires |p| >= 32
  {
    seq(8, (i: int) requires 0 <= i < 8 => Xor(IV[i], LoadLE(p[4 * i..4 * i + 4])))
  }

  /** The key block: the (truncated) key padded with zeros to one block. */
  function KeyBlock(key: seq<bv8>): (b: seq<bv8>)
    ensures |b| == BlockBytes
  {
    Copy(Zeros(BlockBytes), 0, BlockBytes, key[..KeyLength(key)])
  }

  /** The state before the key block is written: counters and flags zero, nothing
      buffered, the buffer contents left as they were. */
  function ResetBase(key: seq<bv8>, buf: seq<bv8>): (s: State)
    requires |buf| == BufBytes
    ensures WellFormed(s)
  {
    State(ParamChain(ParamBlock(KeyLength(key))), [0, 0], [0, 0], buf, 0)
  }

  /** `Reset()` for a digest holding `key`, whose buffer holds `buf`. */
  function ResetState(c: Compressor, key: seq<bv8>, buf: seq<bv8>): (s: State)
    requires |buf| == BufBytes
    ensures WellFormed(s)
  {
    var s := ResetBase(key, buf);
    if KeyLength(key) > 0 then Write(c, s, KeyBlock(key)).s else s
  }

  /** Reset never panics: the key block fits the empty buffer. */
  lemma ResetNeverPanics(c: Compressor, key: seq<bv8>, buf: seq<bv8>)
    requires |buf| == BufBytes && KeyLength(key) > 0
    ensures Write(c, ResetBase(key, buf), KeyBlock(key)).Completed?
  {
    WriteBuffersWhatFits(c, ResetBase(key, buf), KeyBlock(key));
  }

  /** The chaining value the parameter block gives: only the first word differs
      from IV, by `0x0101kk20`, where kk is the key length. */
  lemma ParamChainWords(keylen: nat)
    requires keylen <= KeyBytes
    ensures var h := ParamChain(ParamBlock(keylen));
      h[0] == IV[0] ^ (0x0101_0020 | ((keylen as bv32) << 8))
      && forall i :: 1 <= i < 8 ==> h[i] == IV[i]
  {
    var p := ParamBlock(keylen);
    assert p[..4] == [32, keylen as bv8, 1, 1];
    forall i | 1 <= i < 8 ensures LoadLE(p[4 * i..4 * i + 4]) == 0 {
      assert p[4 * i..4 * i + 4] == [0, 0, 0, 0];
    }
  }

  /** Reset starts from the parameter block's chaining value, with counter and
      flags zero; writing the key block does not change them. */
  lemma ResetParameters(c: Compressor, key: seq<bv8>, buf: seq<bv8>)
    requires |buf| == BufBytes
    ensures var s := ResetState(c, key, buf);
      s.h[0] == IV[0] ^ (0x0101_0020 | ((KeyLength(key) as bv32) << 8))
      && (forall i :: 1 <= i < 8 ==> s.h[i] == IV[i])
      && s.t == [0, 0] && s.f == [0, 0]
  {
    ParamChainWords(KeyLength(key));
    if KeyLength(key) > 0 {
      WriteBuffersWhatFits(c, ResetBase(key, buf), KeyBlock(key));
    }
  }

  /** With a key, Reset leaves exactly one block buffered: the key, then zeros; the
      rest of the buffer is untouched. Without one, nothing is buffered. */
  lemma ResetBuffersKey(c: Compressor, key: seq<bv8>, buf: seq<bv8>)
    requires |buf| == BufBytes
    ensures var s := ResetState(c, key, buf); var kl := KeyLength(key);
      (kl > 0 ==> s.buflen == BlockBytes && s.buf[..kl] == key[..kl]
                  && (forall i :: kl <= i < BlockBytes ==> s.buf[i] == 0)
                  && s.buf[BlockBytes..] == buf[BlockBytes..])
      && (kl == 0 ==> s.buflen == 0 && s.buf == buf)
  {
    var kl := KeyLength(key);
    if kl > 0 {
      WriteBuffersWhatFits(c, ResetBase(key, buf), KeyBlock(key));
    }
  }

  /** A key longer than KeySize is cut to its first KeySize bytes without notice. */
  lemma ResetTruncatesKey(c: Compressor, key: seq<bv8>, buf: seq<bv8>)
    requires |buf| == BufBytes && |key| > KeyBytes
    ensures ResetState(c, key, buf) == ResetState(c, key[..KeyBytes], buf)
  {
    assert key[..KeyBytes][..KeyLength(key[..KeyBytes])] == key[..KeyLength(key)];
  }

  // ---------------------------------------------------------------------------
  // Sum.

  /** The first `if` of `Sum`: when more than one block is buffered, the first
      block is compressed and the rest moved down. */
  function SumFlush(c: Compressor, s: State): (r: State)
    requires WellFormed(s)
    ensures WellFormed(r) && r.buflen <= BlockBytes && r.f == s.f
  {
    if s.buflen > BlockBytes then
      var t := Incremented(s.t, BlockBytes);
      var n := s.buflen - BlockBytes;
      s.(h := c(s.h, MessageWords(s.buf), t, s.f), t := t, buflen := n,
         buf := Copy(s.buf, 0, n, s.buf[BlockBytes..]))
    else s
  }

  /** The statements of `Sum` between the flush and the final compression: the
      remaining bytes counted, the last-block flag set, the buffer zeroed from
      `buflen` on. */
  function PadLast(p: State): (r: State)
    requires WellFormed(p)
    ensures WellFormed(r) && r.buflen == p.buflen
  {
    p.(t := Incremented(p.t, p.buflen), f := p.f[0 := AllOnes],
       buf := p.buf[..p.buflen] + Zeros(BufBytes - p.buflen))
  }

  /** The state at the final compression. */
  function FinalBlock(c: Compressor, s: State): (r: State)
    requires WellFormed(s)
    ensures WellFormed(r)
  {
    PadLast(SumFlush(c, s))
  }

  /** The state `Sum` leaves behind. */
  function SumState(c: Compressor, s: State): (r: State)
    requires WellFormed(s)
    ensures WellFormed(r)
  {
    var q := FinalBlock(c, s);
    q.(h := c(q.h, MessageWords(q.buf), q.t, q.f))
  }

  /** The slice `Sum(prefix)` returns. */
  function SumOutput(c: Compressor, s: State, prefix: seq<bv8>): seq<bv8>
    requires WellFormed(s)
  {
    prefix + Encode(SumState(c, s).h)
  }

  /** Sum appends 32 bytes to the prefix, the final chaining words in little-endian
      order. */
  lemma SumOutputLayout(c: Compressor, s: State, prefix: seq<bv8>)
    requires WellFormed(s)
    ensures var out := SumOutput(c, s, prefix);
      |out| == |prefix| + DigestBytes && out[..|prefix|] == prefix
      && forall i :: 0 <= i < 8 ==>
           LoadLE(out[|prefix| + 4 * i..|prefix| + 4 * i + 4]) == SumState(c, s).h[i]
  {
    var h := SumState(c, s).h;
    var out := SumOutput(c, s, prefix);
    forall i | 0 <= i < 8
      ensures LoadLE(out[|prefix| + 4 * i..|prefix| + 4 * i + 4]) == h[i]
    {
      EncodeDecodes(h, i);
      assert out[|prefix| + 4 * i..|prefix| + 4 * i + 4] == Encode(h)[4 * i..4 * i + 4];
    }
  }

  /** The final block: at most one block of pending bytes, exactly the ones the
      buffer held after the last full block, followed by zeros, with f[0] set and
      f[1] kept. */
  lemma SumFinalBlock(c: Compressor, s: State)
    requires WellFormed(s)
    ensures var q := FinalBlock(c, s);
      var pending := if s.buflen > BlockBytes then s.buf[BlockBytes..s.buflen] else s.buf[..s.buflen];
      q.buflen == |pending| <= BlockBytes && q.buf[..q.buflen] == pending
      && (forall i :: q.buflen <= i < BufBytes ==> q.buf[i] == 0)
      && q.f[0] == AllOnes && q.f[1] == s.f[1]
  {
    var p := SumFlush(c, s);
    if s.buflen > BlockBytes {
      assert p.buf[..p.buflen] == s.buf[BlockBytes..s.buflen];
    }
    var q := FinalBlock(c, s);
    assert q.buf[..q.buflen] == p.buf[..p.buflen];
  }

  /** The counter at the final compression covers every byte the state had taken in. */
  lemma SumCountsEverything(c: Compressor, s: State)
    requires WellFormed(s)
    ensures FinalBlock(c, s).t[0] == (s.t[0] + s.buflen) % WordModulus
  {
  }

  /** Sum is not terminal, against the `hash.Hash` contract: it leaves the pending
      bytes buffered and the flag set, so a second Sum counts those bytes again. */
  lemma SumChangesState(c: Compressor, s: State)
    requires WellFormed(s)
    ensures var r := SumState(c, s);
      r.f[0] == AllOnes && r.buflen == FinalBlock(c, s).buflen
      && FinalBlock(c, r).t[0] == (FinalBlock(c, s).t[0] + r.buflen) % WordModulus
  {
    SumCountsEverything(c, SumState(c, s));
  }

  // ---------------------------------------------------------------------------
  // A whole digest: Reset, a sequence of Writes, the final block of Sum.

  /** The bytes Reset feeds in: one block when there is a key, none otherwise. */
  function KeyBytesWritten(key: seq<bv8>): nat {
    if KeyLength(key) > 0 then BlockBytes else 0
  }

  /** The fill level once n bytes have gone through a buffer that started empty:
      all of them while they fit, then one block plus what follows the last full
      block, a full last block staying buffered. It is always n less whole blocks. */
  function Level(n: nat): (r: int)
    ensures 0 <= r <= BufBytes && (n - r) % BlockBytes == 0
    ensures n > 0 ==> r > 0
    ensures n > BufBytes ==> BlockBytes < r
  {
    if n <= BufBytes then n
    else
      var k := (n - BufBytes - 1) % BlockBytes;
      assert n - BufBytes - 1 == (n - BufBytes - 1) / BlockBytes * BlockBytes + k;
      BlockBytes + 1 + k
  }

  /** A buffer holding b after len more bytes stands where an empty one stands
      after b + len. */
  lemma AbsorbLenLevel(b: int, len: nat)
    requires 0 <= b <= BufBytes
    ensures AbsorbLen(b, len) == Level(b + len)
  {
  }

  lemma {:induction false} ModPlusBlocks(x: int, q: nat)
    ensures (x + q * BlockBytes) % BlockBytes == x % BlockBytes
  {
    if q > 0 {
      ModPlusBlocks(x, q - 1);
      assert x + q * BlockBytes == (x + (q - 1) * BlockBytes) + BlockBytes;
    }
  }

  /** The level after y more bytes depends on the level reached, not on how. */
  lemma LevelThen(n: nat, y: nat)
    ensures Level(Level(n) + y) == Level(n + y)
  {
    if n > BufBytes {
      var k := (n - BufBytes - 1) % BlockBytes;
      var q := (n - BufBytes - 1) / BlockBytes;
      assert n - BufBytes - 1 == q * BlockBytes + k;
      if Level(n) + y > BufBytes {
        assert n + y - BufBytes - 1 == (k + y - BlockBytes) + (q + 1) * BlockBytes;
        ModPlusBlocks(k + y - BlockBytes, q + 1);
      } else {
        assert n + y - BufBytes - 1 == (k + y) + q * BlockBytes;
        ModPlusBlocks(k + y, q);
      }
    }
  }

  /** Absorbing x and then y bytes is absorbing x + y bytes. */
  lemma AbsorbLenCompose(b: int, x: nat, y: nat)
    requires 0 <= b <= BufBytes
    ensures AbsorbLen(AbsorbLen(b, x), y) == AbsorbLen(b, x + y)
  {
    AbsorbLenLevel(b, x);
    AbsorbLenLevel(AbsorbLen(b, x), y);
    AbsorbLenLevel(b, x + y);
    LevelThen(b + x, y);
  }

  /** The bytes of a sequence of writes. */
  function TotalLength(writes: seq<seq<bv8>>): nat {
    if |writes| == 0 then 0 else TotalLength(writes[..|writes| - 1]) + |writes[|writes| - 1]|
  }

  lemma ModAddCongruent(a: int, b: int, k: int)
    requires a % WordModulus == b % WordModulus
    ensures (a + k) % WordModulus == (b + k) % WordModulus
  {
    assert a - b == (a / WordModulus - b / WordModulus) * WordModulus;
    assert (a + k) - (b + k) == a - b;
  }

  /** `Write(a_1)`, ..., `Write(a_k)` in order on state s; a Write that panics
      ends the sequence with the state it panicked in. */
  function WriteAll(c: Compressor, s: State, writes: seq<seq<bv8>>): (r: Outcome)
    requires WellFormed(s)
    ensures WellFormed(r.s)
  {
    if |writes| == 0 then Completed(s)
    else
      var p := WriteAll(c, s, writes[..|writes| - 1]);
      if p.Panicked? then p else Write(c, p.s, writes[|writes| - 1])
  }

  /** Over any sequence of writes that all return, t[0] + buflen grows by the
      bytes written, modulo 2^32, the fill level is the one those bytes lead to,
      and the flags are untouched. */
  lemma {:induction false} WriteAllAccounts(c: Compressor, s: State, writes: seq<seq<bv8>>)
    requires WellFormed(s) && WriteAll(c, s, writes).Completed?
    ensures var r := WriteAll(c, s, writes).s;
      (r.t[0] + r.buflen) % WordModulus == (s.t[0] + s.buflen + TotalLength(writes)) % WordModulus
      && r.buflen == AbsorbLen(s.buflen, TotalLength(writes))
      && r.f == s.f
  {
    if |writes| > 0 {
      var init, last := writes[..|writes| - 1], writes[|writes| - 1];
      var p := WriteAll(c, s, init);
      assert p.Completed?;
      WriteAllAccounts(c, s, init);
      WriteAccounts(c, p.s, last);
      WriteBuflen(c, p.s, last);
      AbsorbLenCompose(s.buflen, TotalLength(init), |last|);
      ModAddCongruent(p.s.t[0] + p.s.buflen, s.t[0] + s.buflen + TotalLength(init), |last|);
    }
  }

  /** After Reset and any sequence of writes that all return, t[0] + buflen is
      the key block plus every byte written, modulo 2^32, the fill level is Level
      of that total, and the flags are zero. */
  lemma WritesSinceResetAccount(c: Compressor, key: seq<bv8>, buf: seq<bv8>, writes: seq<seq<bv8>>)
    requires |buf| == BufBytes && WriteAll(c, ResetState(c, key, buf), writes).Completed?
    ensures var r := WriteAll(c, ResetState(c, key, buf), writes).s;
      var n := KeyBytesWritten(key) + TotalLength(writes);
      (r.t[0] + r.buflen) % WordModulus == n % WordModulus
      && r.buflen == Level(n) && r.f == [0, 0]
  {
    var s := ResetState(c, key, buf);
    ResetParameters(c, key, buf);
    ResetBuffersKey(c, key, buf);
    WriteAllAccounts(c, s, writes);
    AbsorbLenLevel(s.buflen, TotalLength(writes));
  }

  /** From Reset through any sequence of writes that all return to the final
      compression of Sum, the counter counts every byte written, the key block
      included, modulo 2^32, and the flags are [0xffffffff, 0]. */
  lemma SumCountsAllInput(c: Compressor, key: seq<bv8>, buf: seq<bv8>, writes: seq<seq<bv8>>)
    requires |buf| == BufBytes && WriteAll(c, ResetState(c, key, buf), writes).Completed?
    ensures var q := FinalBlock(c, WriteAll(c, ResetState(c, key, buf), writes).s);
      q.t[0] == (KeyBytesWritten(key) + TotalLength(writes)) % WordModulus
      && q.f == [AllOnes, 0]
  {
    WritesSinceResetAccount(c, key, buf, writes);
    SumCountsEverything(c, WriteAll(c, ResetState(c, key, buf), writes).s);
  }
}
