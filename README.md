# BLAKE2b and BLAKE2s digests, modelled in Dafny

This project models the two engines of the Go package pair `blake2b` and `blake2s`. Each engine is a `digest` struct. It holds:

- a chaining value `h`;
- a two-word byte counter `t`;
- two finalisation flags `f`;
- a two-block input buffer `buf` with its fill level `buflen`;
- the key.

Its methods are `Reset`, `Write`, `Sum`, `BlockSize`, `Size`, and the internal `compress` and `incrementCounter`. The algorithm follows RFC 7693: the parameter block of section 2.5, the IV of section 2.6, the schedule of section 2.7, G of section 3.1, F of section 3.2 and the padding and output of section 3.3.

Each engine is modelled in three modules:

- **Compression** (`Blake2bCompress`, `Blake2sCompress`):
  - the constants, the sigma table, little-endian word load and store, `rotr`, G, the rounds and F, over `bv64` and `bv32` words;
  - the array loops of `compress` as methods (`LoadMessage`, `MixRounds`, `FeedForwardInto`).
- **Specification** (`Blake2bSpec`, `Blake2sSpec`):
  - the digest's state as a datatype, and what `incrementCounter`, `Write`, `Reset` and `Sum` do to it, as functions;
  - lemmas stating what those functions guarantee.

  These functions take the compression function as a parameter (`Compressor`), because the buffer, counter and flag bookkeeping does not depend on what F computes. Every lemma therefore holds for any compression function, F included.
- **Class** (`Blake2b`, `Blake2s`): class `Digest`, with the struct's arrays as `array` fields updated in place.
  - Every method is proved to take the object from `State()` to the specification's next state.
  - The ghost field `compress` is the compression function the specification is instantiated with. The class invariant `Valid()` says it agrees with F on every input, and the constructors set it to F.

Module `Bytes` holds Go's built-in `copy` on byte slices and zero-filled blocks for both engines.

Counter words are integers in `0 .. 2^W` with the wrap-around written out. Chaining, message and work-vector words are bit vectors, so `+` wraps as Go's unsigned arithmetic does.

## Deviations from RFC 7693, modelled as written

The code departs from the standard in several ways. Each is modelled as the code behaves, with a reference definition beside it and lemmas stating the difference.

- **Counter carry.** `incrementCounter` decrements `t[1]` when `t[0]` wraps; RFC 7693 adds the carry. `RfcIncremented` is the intended increment. `IncrementBorrowsOnCarry` shows the count landing 2·2^W below the intended one; `IncrementCarryExample` gives the smallest case.
- **Key truncation.** Keys longer than `KeySize` are cut without notice (`ResetTruncatesKey`).
- **Write's return value.** `Write` always reports 0 bytes written.
- **Sum mutates the digest.** `Sum` changes `h`, `t` and `f` and leaves the digest usable, so a second `Sum` counts the pending bytes again (`SumChangesState`).
- **BLAKE2b `Write` copy.** The full-buffer branch copies `buf[:fill]`, the start of the input, on every iteration. Once a write runs that branch twice, the buffer holds the wrong bytes (`WriteMisplacesInput`), and writing in two calls differs from writing in one (`WriteDoesNotStream`).
- **BLAKE2s `Write` copy.** The full-buffer branch copies `buf[offset:fill]`.
  - When `offset > fill` the slice is out of range and Go panics. The model returns `Panicked`, and `WritePanicsIff` states exactly when this happens.
  - When it does not panic it copies `fill - offset` bytes, yet counts `fill`, so input is dropped (`WriteDropsInput`, `WriteDoesNotStream`).
- **Reference variant.** `WriteFixed` copies `buf[offset:offset+fill]`, as the `else` branch already does. It carries the streaming theorem `WriteFixedStreams`. `WriteAgreesWithFixed` shows that the code agrees with it while the full-buffer branch runs at most once.
- **Sigma rows 10 and 11 (BLAKE2b).** The 12-row BLAKE2b sigma table repeats rows 0 and 1. It is the RFC's 10-row table indexed by round mod 10 (`SigmaPeriodTen`). `FMatchesRfc` shows, for each engine, that `compress` is the RFC's F written with the RFC's own G, right rotations and work vector.

## Model

| member | source | states |
|---|---|---|
| Bytes.Copy | blake2b/blake2b.go:163 | Go's `copy(dst[lo:hi], src)`: the first min(hi-lo, len(src)) bytes of src land at lo; every other byte of dst is kept |
| Bytes.CopyTwice | blake2b/blake2b.go:172 | two adjacent copies into the buffer equal one copy of the concatenated input |
| Bytes.CopyInto | blake2b/blake2b.go:167 | the in-place copy loop leaves the array equal to `Copy` of its old contents (memmove semantics for overlapping copies) |
| Blake2bCompress.SigmaRowsArePermutations | blake2b/blake2b.go:26-40 | every row of the 12-row sigma table is a permutation of 0..15 |
| Blake2bCompress.SigmaPeriodTen | blake2b/blake2b.go:27-40 | the table has one row per round, and rows 10 and 11 equal rows 0 and 1 |
| Blake2bCompress.LoadStore | blake2b/blake2b.go:107 | decoding the little-endian encoding of a word gives the word back |
| Blake2bCompress.StoreLoad | blake2b/blake2b.go:198 | encoding the word decoded from 8 bytes gives the bytes back |
| Blake2bCompress.EncodeDecodes | blake2b/blake2b.go:196-199 | bytes 8i..8i+8 of the serialised chain are the encoding of word i and decode back to it |
| Blake2bCompress.MessageWordsReadFirstBlock | blake2b/blake2b.go:106-108 | compress reads only the first 128 bytes of the buffer |
| Blake2bCompress.MessageWordsEncodeBlock | blake2b/blake2b.go:106-108 | message word i re-encodes to bytes 8i..8i+8 of the block |
| Blake2bCompress.Rotr64IsRotation | blake2b/blake2b.go:121-123 | `rotr64(w, c)` is right rotation for the distances 32, 24, 16 and 63 |
| Blake2bCompress.RotationsAgree | blake2b/blake2b.go:121-123 | for every word, `rotr64` by 32, 24, 16 and 63 is the RFC's right rotation `>>>` |
| Blake2bCompress.GMatchesRfc | blake2b/blake2b.go:124-133 | the G closure equals G of RFC 7693 section 3.1 (additions mod 2^64, rotations 32, 24, 16, 63) for every work vector, index quadruple and message words |
| Blake2bCompress.MixStepMatchesRfc | blake2b/blake2b.go:135-142 | the i-th G call of a round, on its column or diagonal with words m[sigma[r][2i]] and m[sigma[r][2i+1]], is the RFC's i-th call |
| Blake2bCompress.MixMatchesRfc | blake2b/blake2b.go:135-142 | the first n G calls of a round are those of the RFC's round |
| Blake2bCompress.InitialWorkMatchesRfc | blake2b/blake2b.go:109-119 | the work vector built from h, iv, t and f is the RFC's: v[12] and v[13] take the two halves of the 128-bit count, v[14] is inverted exactly on the last block |
| Blake2bCompress.RoundsMatchRfc | blake2b/blake2b.go:124-143 | the 12 rounds of compress, with row r of the 12-row table, are the rounds of RFC 7693 section 3.2 built from the RFC's own G with row r mod 10 |
| Blake2bCompress.FMatchesRfc | blake2b/blake2b.go:104-147 | for every 128-bit count t and last-block flag, compress computes RFC 7693 section 3.2's F(h, m, t, f), with Go's t = (t mod 2^64, t div 2^64) and f = (all ones on the last block, else 0; 0) |
| Blake2bCompress.LoadMessage | blake2b/blake2b.go:105-108 | the message-word loop yields the 16 little-endian words of the buffer's first block |
| Blake2bCompress.MixRounds | blake2b/blake2b.go:124-143 | the round loop yields 12 rounds of G on columns then diagonals, round r scheduled by sigma[r] |
| Blake2bCompress.FeedForwardInto | blake2b/blake2b.go:144-146 | the final loop leaves h equal to the feed-forward of its old value and the work vector |
| Blake2bSpec.Incremented | blake2b/blake2b.go:149-154 | t[0] becomes (t[0]+inc) mod 2^64; t[1] is kept without a wrap and decremented mod 2^64 on a wrap |
| Blake2bSpec.RfcIncrementAdds | blake2b/blake2b.go:149-154 | the reference increment adds inc to the 128-bit count modulo 2^128 |
| Blake2bSpec.IncrementMatchesRfcWithoutCarry | blake2b/blake2b.go:149-154 | without a wrap the increment is the reference one and adds inc to the 128-bit count |
| Blake2bSpec.IncrementBorrowsOnCarry | blake2b/blake2b.go:150-153 | with a wrap the 128-bit count lands 2·2^64 below the intended count (mod 2^128) |
| Blake2bSpec.IncrementCarryExample | blake2b/blake2b.go:150-153 | from t = (2^64-1, 0), adding 1 gives (0, 2^64-1) where the RFC gives (0, 1) |
| Blake2bSpec.FillBuffer | blake2b/blake2b.go:163-164 | the fill step leaves a full buffer |
| Blake2bSpec.CompressFull | blake2b/blake2b.go:165-168 | on a full buffer, count-compress-shift leaves exactly one block buffered and the flags unchanged |
| Blake2bSpec.Append | blake2b/blake2b.go:172-173 | an input that fits grows the fill level by its length |
| Blake2bSpec.WriteLoop | blake2b/blake2b.go:159-177 | the Write loop keeps 0 <= buflen <= 256 and never changes the flags |
| Blake2bSpec.WriteFixed | blake2b/blake2b.go:159-177 | the reference loop, copying from the current offset, keeps 0 <= buflen <= 256 |
| Blake2bSpec.WriteIteration | blake2b/blake2b.go:160-176 | one loop iteration keeps the state well formed and offset + remaining = len(data), and either consumes input or, consuming none, lowers buflen |
| Blake2bSpec.AbsorbLenStep | blake2b/blake2b.go:161-170 | one full-buffer step turns absorbing into buflen b into absorbing the rest into one buffered block |
| Blake2bSpec.WriteLoopBuflen | blake2b/blake2b.go:159-177 | the fill level after the loop depends only on the level before and the bytes remaining |
| Blake2bSpec.WriteBuflen | blake2b/blake2b.go:156-179 | after Write, buflen is determined by the old buflen and len(data); it is at least 1 after a non-empty write and in 129..256 after a write that compressed |
| Blake2bSpec.WriteLoopAccounts | blake2b/blake2b.go:159-177 | every loop iteration keeps t[0] + buflen + remaining bytes constant modulo 2^64 |
| Blake2bSpec.CompressFullCounts | blake2b/blake2b.go:163-168 | filling and compressing leaves t[0] + buflen equal to the old t[0] + 256 when t[0] + 128 does not reach 2^64, and to the old t[0] + 256 - 2^64 when it does |
| Blake2bSpec.WriteAccounts | blake2b/blake2b.go:156-179 | t[0] + buflen grows by exactly len(data) modulo 2^64, and the flags are unchanged |
| Blake2bSpec.Level | blake2b/blake2b.go:156-179 | the fill level after n bytes from an empty buffer lies in 0..256, is positive for n > 0, is above one block once n exceeds the buffer, and differs from n by whole blocks |
| Blake2bSpec.AbsorbLenLevel | blake2b/blake2b.go:161-170 | absorbing len bytes into a buffer holding b leaves `Level(b + len)`: the fill level depends only on the bytes gone through |
| Blake2bSpec.LevelThen | blake2b/blake2b.go:161-170 | the level after y more bytes depends only on the level reached: `Level(Level(n) + y) == Level(n + y)` |
| Blake2bSpec.AbsorbLenCompose | blake2b/blake2b.go:156-179 | two Writes of x and y bytes leave the buffer at the level one Write of x + y bytes leaves |
| Blake2bSpec.WriteAllAccounts | blake2b/blake2b.go:156-179 | over any sequence of Writes, t[0] + buflen grows by the total bytes written modulo 2^64, buflen is `AbsorbLen` of the total, and f is unchanged |
| Blake2bSpec.WritesSinceResetAccount | blake2b/blake2b.go:68-179 | after Reset and any sequence of Writes, (t[0] + buflen) mod 2^64 is the key block plus all bytes written, buflen is `Level` of that total, and f is zero |
| Blake2bSpec.WriteBuffersWhatFits | blake2b/blake2b.go:171-176 | a write that fits compresses nothing: h and t are kept and the bytes are copied in after the buffered ones |
| Blake2bSpec.WriteFixedStreams | blake2b/blake2b.go:159-177 | the reference Write streams: writing a then b equals writing a ++ b |
| Blake2bSpec.WriteAgreesWithFixed | blake2b/blake2b.go:162-176 | Write as written equals the reference while at most one full-buffer iteration runs (len(data) <= fill + 128) |
| Blake2bSpec.WriteMisplacesInput | blake2b/blake2b.go:163 | writing 385 bytes to an empty buffer leaves byte 0 of the input where the reference leaves byte 256 |
| Blake2bSpec.WriteDoesNotStream | blake2b/blake2b.go:163 | writing 256 then 129 bytes differs from writing the 385 bytes at once |
| Blake2bSpec.ParamBlock | blake2b/blake2b.go:73-77 | the parameter block is 128 bytes long |
| Blake2bSpec.KeyBlock | blake2b/blake2b.go:88-89 | the key block is 128 bytes long |
| Blake2bSpec.ResetState | blake2b/blake2b.go:68-92 | Reset yields a well-formed state |
| Blake2bSpec.ParamChainWords | blake2b/blake2b.go:73-86 | the parameter chain is h[0] = iv[0] ^ (0x01010040 \| keylen<<8) and h[i] = iv[i] for i >= 1 |
| Blake2bSpec.ResetParameters | blake2b/blake2b.go:68-91 | after Reset, h is the parameter chain for min(len(key), 64), and t and f are zero |
| Blake2bSpec.ResetBuffersKey | blake2b/blake2b.go:87-91 | with a key Reset buffers exactly one block (the key, then zeros) without compressing; without a key nothing is buffered |
| Blake2bSpec.ResetTruncatesKey | blake2b/blake2b.go:69-72 | a key longer than 64 bytes acts as its first 64 bytes |
| Blake2bSpec.SumFlush | blake2b/blake2b.go:183-188 | after the flush at most one block is buffered and the flags are unchanged |
| Blake2bSpec.PadLast | blake2b/blake2b.go:189-194 | counting, setting the flag and zeroing keep the fill level |
| Blake2bSpec.SumOutputLayout | blake2b/blake2b.go:196-200 | Sum returns the prefix followed by exactly 64 bytes, word i of the final chain little-endian at 8i |
| Blake2bSpec.SumFinalBlock | blake2b/blake2b.go:183-194 | at the final compress, <= 128 pending bytes stand first in the buffer, the rest is zero, f[0] is all ones and f[1] is kept |
| Blake2bSpec.SumCountsEverything | blake2b/blake2b.go:183-189 | at the final compress t[0] is the old t[0] + buflen modulo 2^64 |
| Blake2bSpec.SumChangesState | blake2b/blake2b.go:182-201 | Sum leaves the flag set and the pending bytes buffered, so a second Sum counts them again |
| Blake2bSpec.SumCountsAllInput | blake2b/blake2b.go:68-201 | from Reset through any sequence of Writes to the final compress, t[0] counts the key block and every byte written (mod 2^64), and f = (all ones, 0) |
| Blake2b.LoadChain | blake2b/blake2b.go:84-86 | the loop sets h to the parameter chain of the block p |
| Blake2b.Digest.New | blake2b/blake2b.go:53-57 | a new digest has no key and is in the Reset state |
| Blake2b.Digest.NewKeyed | blake2b/blake2b.go:61-66 | a keyed digest stores the key and is in the Reset state for it |
| Blake2b.Digest.BlockSize | blake2b/blake2b.go:94-96 | returns the block size, 128 |
| Blake2b.Digest.Size | blake2b/blake2b.go:98-100 | returns the digest size, 64 |
| Blake2b.Digest.Compress | blake2b/blake2b.go:104-147 | compress sets h to F of old h, the buffer's first block, t and f, and changes nothing else |
| Blake2b.Digest.IncrementCounter | blake2b/blake2b.go:149-154 | t becomes `Incremented(old t, inc)` |
| Blake2b.Digest.AbsorbFull | blake2b/blake2b.go:162-168 | the full-buffer branch moves the digest to `CompressFull(FillBuffer(state, chunk))` |
| Blake2b.Digest.AbsorbRest | blake2b/blake2b.go:171-173 | the fitting branch moves the digest to `Append(state, rest)` |
| Blake2b.Digest.Write | blake2b/blake2b.go:156-179 | Write takes the digest to the specification's Write of its old state, returning 0 |
| Blake2b.Digest.WriteStep | blake2b/blake2b.go:160-176 | one pass of the loop body takes the digest, the offset and the remaining length to the specification's iteration of the old ones |
| Blake2b.Digest.Reset | blake2b/blake2b.go:68-92 | Reset takes the digest to `ResetState` of its key and its old buffer |
| Blake2b.Digest.FlushFirstBlock | blake2b/blake2b.go:183-188 | the first branch of Sum takes the digest to `SumFlush` |
| Blake2b.Digest.PadLastBlock | blake2b/blake2b.go:189-194 | counting, flagging and zeroing take the digest to `PadLast` |
| Blake2b.Digest.EncodeChain | blake2b/blake2b.go:196-199 | the output loop yields the little-endian serialisation of h |
| Blake2b.Digest.Sum | blake2b/blake2b.go:182-201 | Sum leaves the digest in `SumState` and returns `SumOutput` |
| Blake2sCompress.SigmaRowsArePermutations | blake2s/blake2s.go:24-36 | every row of the 10-row sigma table is a permutation of 0..15 |
| Blake2sCompress.LoadStore | blake2s/blake2s.go:103 | decoding the little-endian encoding of a word gives the word back |
| Blake2sCompress.StoreLoad | blake2s/blake2s.go:194 | encoding the word decoded from 4 bytes gives the bytes back |
| Blake2sCompress.EncodeDecodes | blake2s/blake2s.go:192-195 | bytes 4i..4i+4 of the serialised chain are the encoding of word i and decode back to it |
| Blake2sCompress.MessageWordsReadFirstBlock | blake2s/blake2s.go:102-104 | compress reads only the first 64 bytes of the buffer |
| Blake2sCompress.MessageWordsEncodeBlock | blake2s/blake2s.go:102-104 | message word i re-encodes to bytes 4i..4i+4 of the block |
| Blake2sCompress.Rotr32IsRotation | blake2s/blake2s.go:117-119 | `rotr32(w, c)` is right rotation for the distances 16, 12, 8 and 7 |
| Blake2sCompress.RotationsAgree | blake2s/blake2s.go:117-119 | for every word, `rotr32` by 16, 12, 8 and 7 is the RFC's right rotation `>>>` |
| Blake2sCompress.GMatchesRfc | blake2s/blake2s.go:120-129 | the G closure equals G of RFC 7693 section 3.1 (additions mod 2^32, rotations 16, 12, 8, 7) for every work vector, index quadruple and message words |
| Blake2sCompress.MixStepMatchesRfc | blake2s/blake2s.go:131-138 | the i-th G call of a round, on its column or diagonal with words m[sigma[r][2i]] and m[sigma[r][2i+1]], is the RFC's i-th call |
| Blake2sCompress.MixMatchesRfc | blake2s/blake2s.go:131-138 | the first n G calls of a round are those of the RFC's round |
| Blake2sCompress.RoundsMatchRfc | blake2s/blake2s.go:120-139 | the 10 rounds of compress are the rounds of RFC 7693 section 3.2 built from the RFC's own G |
| Blake2sCompress.InitialWorkMatchesRfc | blake2s/blake2s.go:105-115 | the work vector built from h, iv, t and f is the RFC's: v[12] and v[13] take the two halves of the 64-bit count, v[14] is inverted exactly on the last block |
| Blake2sCompress.FMatchesRfc | blake2s/blake2s.go:100-143 | for every 64-bit count t and last-block flag, compress computes RFC 7693 section 3.2's F(h, m, t, f), with Go's t = (t mod 2^32, t div 2^32) and f = (all ones on the last block, else 0; 0) |
| Blake2sCompress.LoadMessage | blake2s/blake2s.go:101-104 | the message-word loop yields the 16 little-endian words of the buffer's first block |
| Blake2sCompress.MixRounds | blake2s/blake2s.go:120-139 | the round loop yields 10 rounds of G on columns then diagonals, round r scheduled by sigma[r] |
| Blake2sCompress.FeedForwardInto | blake2s/blake2s.go:140-142 | the final loop leaves h equal to the feed-forward of its old value and the work vector |
| Blake2sSpec.Incremented | blake2s/blake2s.go:145-150 | t[0] becomes (t[0]+inc) mod 2^32; t[1] is kept without a wrap and decremented mod 2^32 on a wrap |
| Blake2sSpec.RfcIncrementAdds | blake2s/blake2s.go:145-150 | the reference increment adds inc to the 64-bit count modulo 2^64 |
| Blake2sSpec.IncrementMatchesRfcWithoutCarry | blake2s/blake2s.go:145-150 | without a wrap the increment is the reference one and adds inc to the 64-bit count |
| Blake2sSpec.IncrementBorrowsOnCarry | blake2s/blake2s.go:146-149 | with a wrap the 64-bit count lands 2·2^32 below the intended count (mod 2^64) |
| Blake2sSpec.IncrementCarryExample | blake2s/blake2s.go:146-149 | from t = (2^32-1, 0), adding 1 gives (0, 2^32-1) where the RFC gives (0, 1) |
| Blake2sSpec.FillBuffer | blake2s/blake2s.go:159-160 | the fill step leaves a full buffer |
| Blake2sSpec.CompressFull | blake2s/blake2s.go:161-164 | on a full buffer, count-compress-shift leaves exactly one block buffered and the flags unchanged |
| Blake2sSpec.Append | blake2s/blake2s.go:168-169 | an input that fits grows the fill level by its length |
| Blake2sSpec.WriteLoop | blake2s/blake2s.go:155-173 | the Write loop, panicking or not, keeps 0 <= buflen <= 128 and never changes the flags |
| Blake2sSpec.WriteFixed | blake2s/blake2s.go:155-173 | the reference loop, copying `buf[offset:offset+fill]`, keeps 0 <= buflen <= 128 |
| Blake2sSpec.WriteIteration | blake2s/blake2s.go:156-172 | one loop iteration whose slice is in range keeps the state well formed and offset + remaining = len(data), and either consumes input or, consuming none, lowers buflen |
| Blake2sSpec.WritePanicsIff | blake2s/blake2s.go:158-159 | Write panics if and only if (buflen < 64 and len+buflen > 192) or (len+buflen > 256 and (buflen < 128 or len+buflen > 320)) |
| Blake2sSpec.WritePanicExample | blake2s/blake2s.go:159 | 193 bytes written to an empty buffer panic; no write of at most 64 bytes ever panics |
| Blake2sSpec.AbsorbLenStep | blake2s/blake2s.go:157-166 | one full-buffer step turns absorbing into buflen b into absorbing the rest into one buffered block |
| Blake2sSpec.WriteLoopBuflen | blake2s/blake2s.go:155-173 | when the loop returns, the fill level depends only on the level before and the bytes remaining |
| Blake2sSpec.WriteBuflen | blake2s/blake2s.go:152-175 | after a Write that returns, buflen is determined by the old buflen and len(data); it is at least 1 after a non-empty write and in 65..128 after a write that compressed |
| Blake2sSpec.WriteBuffersWhatFits | blake2s/blake2s.go:167-172 | a write that fits returns and only appends: h and t are kept and the bytes are copied in after the buffered ones |
| Blake2sSpec.CompressFullCounts | blake2s/blake2s.go:159-164 | filling and compressing leaves t[0] + buflen equal to the old t[0] + 128 when t[0] + 64 does not reach 2^32, and to the old t[0] + 128 - 2^32 when it does |
| Blake2sSpec.WriteLoopAccounts | blake2s/blake2s.go:155-173 | when the loop returns, t[0] + buflen has grown by the bytes remaining, modulo 2^32 |
| Blake2sSpec.WriteAccounts | blake2s/blake2s.go:152-175 | a Write that returns grows t[0] + buflen by exactly len(data) modulo 2^32; no Write changes the flags |
| Blake2sSpec.Level | blake2s/blake2s.go:152-175 | the fill level after n bytes from an empty buffer lies in 0..128, is positive for n > 0, is above one block once n exceeds the buffer, and differs from n by whole blocks |
| Blake2sSpec.AbsorbLenLevel | blake2s/blake2s.go:157-166 | absorbing len bytes into a buffer holding b leaves `Level(b + len)`: the fill level depends only on the bytes gone through |
| Blake2sSpec.LevelThen | blake2s/blake2s.go:157-166 | the level after y more bytes depends only on the level reached: `Level(Level(n) + y) == Level(n + y)` |
| Blake2sSpec.AbsorbLenCompose | blake2s/blake2s.go:152-175 | two Writes of x and y bytes leave the buffer at the level one Write of x + y bytes leaves |
| Blake2sSpec.WriteAllAccounts | blake2s/blake2s.go:152-175 | over any sequence of Writes that all return, t[0] + buflen grows by the total bytes written modulo 2^32, buflen is `AbsorbLen` of the total, and f is unchanged |
| Blake2sSpec.WritesSinceResetAccount | blake2s/blake2s.go:64-175 | after Reset and any sequence of Writes that all return, (t[0] + buflen) mod 2^32 is the key block plus all bytes written, buflen is `Level` of that total, and f is zero |
| Blake2sSpec.WriteFixedStreams | blake2s/blake2s.go:155-173 | the reference Write streams: writing a then b equals writing a ++ b |
| Blake2sSpec.WriteAgreesWithFixed | blake2s/blake2s.go:158-172 | Write as written returns and equals the reference while at most one full-buffer iteration runs (len(data) <= fill + 64) |
| Blake2sSpec.WriteDropsInput | blake2s/blake2s.go:159 | writing 129 bytes to a one-block buffer returns but leaves byte 0 of the input where the reference leaves byte 64 |
| Blake2sSpec.WriteDoesNotStream | blake2s/blake2s.go:159 | writing 64 then 65 bytes returns a different state from writing the 129 bytes at once |
| Blake2sSpec.ParamBlock | blake2s/blake2s.go:69-73 | the parameter block is 64 bytes long |
| Blake2sSpec.KeyBlock | blake2s/blake2s.go:84-85 | the key block is 64 bytes long |
| Blake2sSpec.ResetState | blake2s/blake2s.go:64-88 | Reset yields a well-formed state |
| Blake2sSpec.ResetNeverPanics | blake2s/blake2s.go:83-87 | the Write of the key block inside Reset always returns |
| Blake2sSpec.ParamChainWords | blake2s/blake2s.go:69-82 | the parameter chain is h[0] = iv[0] ^ (0x01010020 \| keylen<<8) and h[i] = iv[i] for i >= 1 |
| Blake2sSpec.ResetParameters | blake2s/blake2s.go:64-87 | after Reset, h is the parameter chain for min(len(key), 32), and t and f are zero |
| Blake2sSpec.ResetBuffersKey | blake2s/blake2s.go:83-87 | with a key Reset buffers exactly one block (the key, then zeros) without compressing; without a key nothing is buffered |
| Blake2sSpec.ResetTruncatesKey | blake2s/blake2s.go:65-68 | a key longer than 32 bytes acts as its first 32 bytes |
| Blake2sSpec.SumFlush | blake2s/blake2s.go:179-184 | after the flush at most one block is buffered and the flags are unchanged |
| Blake2sSpec.PadLast | blake2s/blake2s.go:185-190 | counting, setting the flag and zeroing keep the fill level |
| Blake2sSpec.SumOutputLayout | blake2s/blake2s.go:192-196 | Sum returns the prefix followed by exactly 32 bytes, word i of the final chain little-endian at 4i |
| Blake2sSpec.SumFinalBlock | blake2s/blake2s.go:179-190 | at the final compress, <= 64 pending bytes stand first in the buffer, the rest is zero, f[0] is all ones and f[1] is kept |
| Blake2sSpec.SumCountsEverything | blake2s/blake2s.go:179-185 | at the final compress t[0] is the old t[0] + buflen modulo 2^32 |
| Blake2sSpec.SumChangesState | blake2s/blake2s.go:178-197 | Sum leaves the flag set and the pending bytes buffered, so a second Sum counts them again |
| Blake2sSpec.SumCountsAllInput | blake2s/blake2s.go:64-197 | from Reset through any sequence of Writes that all return to the final compress, t[0] counts the key block and every byte written (mod 2^32), and f = (all ones, 0) |
| Blake2s.LoadChain | blake2s/blake2s.go:80-82 | the loop sets h to the parameter chain of the block p |
| Blake2s.Digest.New | blake2s/blake2s.go:49-53 | a new digest has no key and is in the Reset state |
| Blake2s.Digest.NewKeyed | blake2s/blake2s.go:57-62 | a keyed digest stores the key and is in the Reset state for it |
| Blake2s.Digest.BlockSize | blake2s/blake2s.go:90-92 | returns the block size, 64 |
| Blake2s.Digest.Size | blake2s/blake2s.go:94-96 | returns the digest size, 32 |
| Blake2s.Digest.Compress | blake2s/blake2s.go:100-143 | compress sets h to F of old h, the buffer's first block, t and f, and changes nothing else |
| Blake2s.Digest.IncrementCounter | blake2s/blake2s.go:145-150 | t becomes `Incremented(old t, inc)` |
| Blake2s.Digest.AbsorbFull | blake2s/blake2s.go:158-164 | the full-buffer branch moves the digest to `CompressFull(FillBuffer(state, buf[offset:fill]))` |
| Blake2s.Digest.AbsorbRest | blake2s/blake2s.go:167-169 | the fitting branch moves the digest to `Append(state, rest)` |
| Blake2s.Digest.Write | blake2s/blake2s.go:152-175 | Write takes the digest to the specification's Write outcome of its old state: it reports a panic exactly when the Go code panics, with the state it panics in, and otherwise returns 0 |
| Blake2s.Digest.WriteStep | blake2s/blake2s.go:156-172 | one pass of the loop body whose slice is in range takes the digest, the offset and the remaining length to the specification's iteration of the old ones |
| Blake2s.Digest.Reset | blake2s/blake2s.go:64-88 | Reset takes the digest to `ResetState` of its key and its old buffer |
| Blake2s.Digest.FlushFirstBlock | blake2s/blake2s.go:179-184 | the first branch of Sum takes the digest to `SumFlush` |
| Blake2s.Digest.PadLastBlock | blake2s/blake2s.go:185-190 | counting, flagging and zeroing take the digest to `PadLast` |
| Blake2s.Digest.EncodeChain | blake2s/blake2s.go:192-195 | the output loop yields the little-endian serialisation of h |
| Blake2s.Digest.Sum | blake2s/blake2s.go:178-197 | Sum leaves the digest in `SumState` and returns `SumOutput` |

## Left out

- The `hash.Hash` interface: `New` and `NewKeyed` are constructors of `Digest` that call `Reset`. Nothing is returned through an interface.
- The caller's key slice is stored without a copy in Go, so later changes by the caller would show through. The key here is an immutable sequence.
- `encoding/binary` is not called: its `Uint64`/`Uint32` and `PutUint64`/`PutUint32` are written out as explicit little-endian functions (`LoadLE`, `StoreLE`).
- A Go panic is an abort, not a value. `Blake2s.Digest.Write` returns `panicked` in its place, with the digest left as it was when the slice expression failed. Nothing models recovering from the panic.
- Blake2b.Digest.Compress and Blake2s.Digest.Compress: the work vector `v` and the message `m` are sequence values, not local arrays, and G is a function on the work vector rather than a closure assigning into it. The round loop is a method (`MixRounds`) over that value. The eight assignments of G are the eight updates of `G`, in the same order.
- Blake2b.Digest.Sum and Blake2s.Digest.Sum: `append(buf, buffer...)` may reuse the caller's array in Go; here the prefix is a sequence and the result a new one.
- Known-answer vectors of RFC 7693's appendices are not evaluated. The rounds are never unfolded on concrete data.
- Cryptographic properties (collision resistance, PRF security) cannot be stated here.
- The package-level constants `BlockSize` and `KeySize` are the module constants `BlockBytes` and `KeyBytes`. The byte counter `t` is an integer pair with the 2^64 (2^32) wrap written out; the other words are bit vectors.
- Nothing is concurrent in the source and nothing concurrent is modelled.
