/** The `digest` type of blake2s/blake2s.go: an object whose methods update its
    arrays in place. Every method is proved to move the object from one state of
    module Blake2sSpec to the next. The specification functions take the
    compression function as a parameter; a digest passes its ghost field
    `compress`, which its invariant makes agree with F on every input (the
    constructors set it to F). */
module Blake2s {
  import opened Bytes
  import opened Blake2sCompress
  import opened Blake2sSpec

  /** The loop of `Reset` that sets h[i] to IV[i] ^ word i of the parameter
      block. */
  method LoadChain(h: array<bv32>, p: seq<bv8>)
    requires h.Length == 8 && |p| >= 32
    modifies h
    ensures h[..] == ParamChain(p)
  {
    for i := 0 to 8
      invariant forall k :: 0 <= k < i ==> h[k] == Xor(IV[k], LoadLE(p[4 * k..4 * k + 4]))
    {
      h[i] := Xor(IV[i], LoadLE(p[4 * i..4 * i + 4]));
    }
  }

  class Digest {
    const h: array<bv32>
    const t: array<Uint32>
    const f: array<bv32>
    const buf: array<bv8>
    var buflen: int
    var key: seq<bv8>
    /** The compression function the specification is instantiated with. */
    ghost const compress: Compressor

    /** The fixed array lengths of the Go struct, its arrays being separate
        objects (Go embeds them by value), the fill level bound, and `compress`
        being F. */
    ghost predicate Valid()
      reads this
    {
      h.Length == 8 && t.Length == 2 && f.Length == 2 && buf.Length == BufBytes
      && h != f && t as object != h && t as object != f && t as object != buf
      && 0 <= buflen <= BufBytes
      && forall h0, m, t0, f0 {:trigger F(h0, m, t0, f0)} :: compress(h0, m, t0, f0) == F(h0, m, t0, f0)
    }

    /** The digest's fields as a value of the specification. */
    ghost function State(): State
      reads this, h, t, f, buf
      requires Valid()
    {
      Blake2sSpec.State(h[..], t[..], f[..], buf[..], buflen)
    }

    /** `New()`: a digest without a key, after `Reset`. */
    constructor New()
      ensures Valid() && key == [] && compress == F
      ensures State() == ResetState(compress, [], Zeros(BufBytes))
    {
      h := new bv32[8](_ => 0);
      t := new Uint32[2](_ => 0);
      f := new bv32[2](_ => 0);
      buf := new bv8[BufBytes](_ => 0);
      buflen := 0;
      key := [];
      compress := F;
      new;
      assert buf[..] == Zeros(BufBytes);
      Reset();
    }

    /** `NewKeyed(key)`: a digest holding `key`, after `Reset`. */
    constructor NewKeyed(key: seq<bv8>)
      ensures Valid() && this.key == key && compress == F
      ensures State() == ResetState(compress, key, Zeros(BufBytes))
    {
      h := new bv32[8](_ => 0);
      t := new Uint32[2](_ => 0);
      f := new bv32[2](_ => 0);
      buf := new bv8[BufBytes](_ => 0);
      buflen := 0;
      this.key := key;
      compress := F;
      new;
      assert buf[..] == Zeros(BufBytes);
      Reset();
    }

    /** `BlockSize()`. */
    function BlockSize(): (n: int)
      ensures n == BlockBytes
    {
      64
    }

    /** `Size()`. */
    function Size(): (n: int)
      ensures n == DigestBytes
    {
      32
    }

    /** `compress()`: F of the chaining value, the first block of the buffer, the
        counter and the flags, into `h`; nothing else changes. */
    method Compress()
      requires Valid()
      modifies h
      ensures h[..] == compress(old(h[..]), MessageWords(buf[..]), t[..], f[..])
    {
      var m := LoadMessage(buf);
      var v := InitialWork(h[..], t[..], f[..]);
      v := MixRounds(v, m);
      ghost var h0 := h[..];
      FeedForwardInto(h, v);
      FIsFeedForward(h0, MessageWords(buf[..]), t[..], f[..]);
    }

    /** `incrementCounter(inc)`. */
    method IncrementCounter(inc: Uint32)
      requires Valid()
      modifies t
      ensures t[..] == Incremented(old(t[..]), inc)
    {
      t[0] := (t[0] + inc) % WordModulus;
      if t[0] < inc {
        t[1] := (t[1] - 1) % WordModulus;
      }
    }

    /** The full-buffer branch of `Write` with `chunk` the input slice it copies:
        fill the buffer, count and compress its first block, move the second
        block down. */
    method AbsorbFull(chunk: seq<bv8>)
      requires Valid()
      modifies this`buflen, h, t, buf
      ensures Valid()
      ensures State() == CompressFull(compress, FillBuffer(old(State()), chunk))
    {
      ghost var s := State();
      CopyInto(buf, buflen, BufBytes, chunk);
      buflen := BufBytes;
      ghost var s1 := State();
      assert s1 == FillBuffer(s, chunk);
      IncrementCounter(BlockBytes);
      assert h[..] == s1.h && buf[..] == s1.buf && f[..] == s1.f;
      assert t[..] == Incremented(s1.t, BlockBytes);
      Compress();
      assert h[..] == compress(s1.h, MessageWords(s1.buf), Incremented(s1.t, BlockBytes), s1.f);
      CopyInto(buf, 0, BlockBytes, buf[BlockBytes..]);
      buflen := BlockBytes;
      assert buf[..] == Copy(s1.buf, 0, BlockBytes, s1.buf[BlockBytes..]);
    }

    /** The branch of `Write` taken when the rest of the input, `chunk`, fits. */
    method AbsorbRest(chunk: seq<bv8>)
      requires Valid() && |chunk| <= BufBytes - buflen
      modifies this`buflen, buf
      ensures Valid()
      ensures State() == Append(old(State()), chunk)
    {
      CopyInto(buf, buflen, BufBytes, chunk);
      buflen := buflen + |chunk|;
    }

    /** One iteration of the loop of `Write` whose slice `buf[offset:fill]` is
        in range, with `offset` bytes of `data` consumed and `inlen` > 0
        remaining. */
    method WriteStep(data: seq<bv8>, offset: nat, inlen: nat) returns (offset': nat, inlen': nat)
      requires Valid() && offset + inlen == |data| && inlen > 0
      requires inlen > BufBytes - buflen ==> offset <= BufBytes - buflen
      modifies this`buflen, h, t, buf
      ensures Valid()
      ensures Progress(State(), offset', inlen') == WriteIteration(compress, old(State()), data, offset, inlen)
    {
      ghost var s := State();
      var fill := BufBytes - buflen;
      if inlen > fill {
        ghost var s' := CompressFull(compress, FillBuffer(s, data[offset..fill]));
        assert WriteIteration(compress, s, data, offset, inlen) == Progress(s', offset + fill, inlen - fill);
        AbsorbFull(data[offset..fill]);
        offset', inlen' := offset + fill, inlen - fill;
      } else {
        assert WriteIteration(compress, s, data, offset, inlen) == Progress(Append(s, data[offset..]), offset + inlen, 0);
        AbsorbRest(data[offset..]);
        offset', inlen' := offset + inlen, 0;
      }
    }

    /** `Write(data)`: absorbs `data` as the specification's Write does. When the
        Go method would panic on the slice `buf[offset:fill]`, this one stops at
        that point with `panicked` set; otherwise it reports, like the Go method,
        0 bytes written and no error. */
    method Write(data: seq<bv8>) returns (n: int, panicked: bool)
      requires Valid()
      modifies this`buflen, h, t, buf
      ensures Valid()
      ensures (if panicked then Panicked(State()) else Completed(State()))
        == Blake2sSpec.Write(compress, old(State()), data)
      ensures n == 0
    {
      n, panicked := 0, false;
      var inlen: nat := |data|;
      var offset: nat := 0;
      while inlen > 0
        invariant Valid() && offset + inlen == |data|
        invariant WriteLoop(compress, State(), data, offset, inlen) == Blake2sSpec.Write(compress, old(State()), data)
        decreases inlen, buflen
      {
        var fill := BufBytes - buflen;
        if inlen > fill && offset > fill {
          panicked := true;
          return;
        }
        WriteLoopIteration(compress, State(), data, offset, inlen);
        offset, inlen := WriteStep(data, offset, inlen);
      }
    }

    /** `Reset()`. */
    method Reset()
      requires Valid()
      modifies this`buflen, h, t, f, buf
      ensures Valid()
      ensures State() == ResetState(compress, key, old(buf[..]))
    {
      var keylen := |key|;
      if keylen > KeyBytes {
        keylen := KeyBytes;
      }
      var p := ParamBlock(keylen);
      f[0], f[1] := 0, 0;
      t[0], t[1] := 0, 0;
      buflen := 0;
      LoadChain(h, p);
      assert State() == ResetBase(key, old(buf[..]));
      if keylen > 0 {
        var block := Copy(Zeros(BlockBytes), 0, BlockBytes, key[..keylen]);
        var _, _ := Write(block);
      }
    }

    /** The first `if` of `Sum`. */
    method FlushFirstBlock()
      requires Valid()
      modifies this`buflen, h, t, buf
      ensures Valid()
      ensures State() == SumFlush(compress, old(State()))
    {
      if buflen > BlockBytes {
        ghost var s := State();
        IncrementCounter(BlockBytes);
        assert h[..] == s.h && buf[..] == s.buf && f[..] == s.f;
        Compress();
        assert h[..] == compress(s.h, MessageWords(s.buf), Incremented(s.t, BlockBytes), s.f);
        buflen := buflen - BlockBytes;
        CopyInto(buf, 0, buflen, buf[BlockBytes..]);
        assert buf[..] == Copy(s.buf, 0, buflen, s.buf[BlockBytes..]);
      }
    }

    /** The statements of `Sum` that prepare the last block. */
    method PadLastBlock()
      requires Valid()
      modifies t, f, buf
      ensures Valid()
      ensures State() == PadLast(old(State()))
    {
      ghost var s := State();
      IncrementCounter(buflen);
      f[0] := AllOnes;
      var j := BufBytes - buflen;
      for i := 0 to j
        modifies buf
        invariant forall k :: 0 <= k < BufBytes ==>
          buf[k] == if buflen <= k < buflen + i then 0 else s.buf[k]
      {
        buf[i + buflen] := 0;
      }
      assert buf[..] == s.buf[..buflen] + Zeros(BufBytes - buflen);
    }

    /** The output loop of `Sum`: the chaining words, little-endian. */
    method EncodeChain() returns (buffer: seq<bv8>)
      requires Valid()
      ensures buffer == Encode(h[..])
    {
      buffer := [];
      for i := 0 to 8
        invariant buffer == Encode(h[..i])
      {
        assert h[..i + 1][..i] == h[..i];
        buffer := buffer + StoreLE(h[i]);
      }
      assert h[..8] == h[..];
    }

    /** `Sum(prefix)`: the prefix followed by the digest; the digest is left in the
        finalised state the specification's SumState describes. */
    method Sum(prefix: seq<bv8>) returns (out: seq<bv8>)
      requires Valid()
      modifies this`buflen, h, t, f, buf
      ensures Valid()
      ensures State() == SumState(compress, old(State()))
      ensures out == SumOutput(compress, old(State()), prefix)
    {
      FlushFirstBlock();
      PadLastBlock();
      Compress();
      var buffer := EncodeChain();
      out := prefix + buffer;
    }
  }
}
