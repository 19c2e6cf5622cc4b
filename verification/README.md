# Verified models from a MicroPython port for FreeDOS

This project models the algorithmic core of a MicroPython port to 32-bit DOS and of its test rigs, and
proves what that core is for. Each module follows one part of the system, in that part's own form: code that
changes arrays, buffers or registers step by step is a class or a method with loops, proved against a function
on values; the laws are lemmas about those functions and about every run of the state machines.

- `WideMultiply`: the schoolbook multiply of word arrays behind the RSA benchmark.
- `Sha256Spec`, `Sha256Laws`, `Sha256`, `Hmac`, `AesCtr`: streaming hash, MAC and counter mode against one-shot definitions
  (FIPS 180-4, section 2 of RFC 2104, section 4 of RFC 4344).
- `ByteNumber`, `Calendar`: the byte-array bignum and the calendar arithmetic, with their word sizes.
- `Ne2000Ring`, `Ne2000`: the polled NIC driver on a register-level NIC; arrivals may fall inside a poll.
- `RxStub`, `StubReceiver`, `PktReceiver`: the hand-assembled receiver run byte by byte on an 8086 model, the
  drain behind it, and the two-phase protected-mode receiver.
- `ByteRing`: the byte ring between lwIP callbacks and TLS reads.
- `UrlCodec`, `UrlSplit`, `Base64`, `Qstr`: encoders and decoders that undo each other, and exactly when.
- `DosFile`: file reads, writes and seeks in pieces through a 2 KB bounce buffer.
- `Machine`, `Bits`, `Frames`: fixed-width integers, positional values, exclusive or; frames and the record of a run of
  receives.

`dafny verify dfyconfig.toml` checks everything.

## Environment

Hardware and foreign code appear as stated contracts, never as axioms. `Ne2000.Nic` answers register accesses and
stores frames for its address or for all at CURR; arrivals inside a poll are placed after the read of CURR, after the header and after the body.
`DosFile.Dos` is DOS with one open file; a plan, which is arbitrary, says which calls fail and how much the others
move. The AES block function, the key schedule and the hashes other than SHA-256 are parameters. The outcome of every
malloc in `ByteNumber` is an argument. The entity table of `Qstr` is a parameter; its names are unambiguous when cut
at an underscore and begin with a word that holds a letter other than a to f and x. Clock readings and pumped
callbacks of `ByteRing.SockRead` are arguments; they go on until the read stops. Signed overflow wraps, as the
compiler's target does.

## Where the code and its documentation differ

- `days_from_civil` is documented for every year from 0 on; in January and February of year 0 the truncating
  division gives a wrong day. `Calendar.CivilExactly` states the exact condition.
- `unescape` is documented to be unambiguous because names have two characters or more; `Qstr.LiteralMisread`
  is a counterexample, `Qstr.UnescapeExactly` the condition.
- `quote` with `%` (or, in plus mode, `+`) among the safe characters cannot be undone: `UrlCodec.QuoteReversible`.
- A counter-mode call drops the rest of its last key stream block, so a cut inside a block changes the result:
  `AesCtr.CtrSplitExactly`.
- `dos_int21_fsize` is documented to seek back; a size of 2 GB or a failed last seek leaves the position at the end, in
  the second case with a size as if nothing had happened: `DosFile.SizeExactly`, `DosFile.SizeTooLarge`,
  `DosFile.SizeNotRestored`. The lexer then takes the source to be empty: `DosFile.LoadSource`.
- `ne2k_poll_rx` is documented to return 0 when nothing is pending; it also does for a bad or empty packet, which it
  takes: `Ne2000.ZeroReply`, `Ne2000.BadPacketSilent`.
- `_hmac_init` follows RFC 2104 for keys below 2^31 bytes; longer ones look negative and are copied over the key
  buffer instead of being hashed: `Hmac.KeyOverrunsExactly`.
- `ne2k_poll_rx` is documented to cap the copy at maxlen; word transfers store one byte more for an odd maxlen that
  the packet fills: `Ne2000.CapExactly`, `Ne2000.CapOverrun`.
- The reset wait of `ne2k_init_direct` counts below zero, so a NIC that never resets is not reported and one that
  resets at the last reading is: `Ne2000.Driver.AwaitReset`, `Ne2000.ResetWitnesses`.
- `smoke_sock_read` is documented to return 0 at end of stream; it also returns 0 when time runs out, even if the
  last pump brought data. The data is not lost: `ByteRing.ZeroExactly`, `ByteRing.TimeoutWithData`.

## Model

| member | source | states |
|---|---|---|
| `WideMultiply.RegularMultiply` | rigs/bigint-bench/main.c:86-100 | for every n and all word arrays, the 2n output words denote the old low half plus the product; the old upper half does not matter and words above 2n are untouched |
| `WideMultiply.MultiplyRow` | rigs/bigint-bench/main.c:91-97 | one pass of the inner loop adds b times the multiplicand to n words and returns the carry out of them; the other words are unchanged |
| `WideMultiply.ColumnFits` | rigs/bigint-bench/main.c:94 | word + word * word + word never leaves 64 bits, so the truncation of the intermediate loses nothing |
| `WideMultiply.ColumnStep` | rigs/bigint-bench/main.c:92-97 | storing the low and carrying the high half keeps the value equation of the row, one column further |
| `WideMultiply.RowStep` | rigs/bigint-bench/main.c:88-99 | a row and its stored carry turn the product with i words into the product with i + 1 words |
| `WideMultiply.ProductFits` | rigs/bigint-bench/main.c:86-100 | low half plus product is below 2^(64n): nothing can be lost above the 2n words |
| `WideMultiply.ValueInjective` | rigs/bigint-bench/main.c:86-100 | equal values of equally long word strings mean equal words, so the value equation fixes every output word |
| `Sha256.HashPieces` | rigs/tls-smoke/patches/sha256.c:65-117 | init, updates with any cutting of any message, final: the FIPS 180-4 digest of the concatenation |
| `Sha256.Context.constructor` | rigs/tls-smoke/patches/sha256.c:65-71 | the context of the empty message: the fold over no blocks is the initial hash value |
| `Sha256.Context.Absorb` | rigs/tls-smoke/patches/sha256.c:75-83 | one byte extends the message the context stands for, whether or not it completes a block |
| `Sha256.Context.Update` | rigs/tls-smoke/patches/sha256.c:73-84 | the bytes are appended to the message the context stands for |
| `Sha256.Context.Transform` | rigs/tls-smoke/patches/sha256.c:34-63 | the state becomes the section 6.2.2 compression of the buffered block |
| `Sha256.ExpandSchedule` | rigs/tls-smoke/patches/sha256.c:37-46 | the in-place schedule, with the code's own shifts and sums, equals the recursive message schedule at all 64 places |
| `Sha256.RunRounds` | rigs/tls-smoke/patches/sha256.c:47-59 | 64 in-place rotations of eight locals, with the temporaries written out, equal 64 applications of the round function |
| `Sha256.LoadWord` | rigs/tls-smoke/patches/sha256.c:37-41 | four bytes of the block, shifted together, are the block word |
| `Sha256.NextWord` | rigs/tls-smoke/patches/sha256.c:42-46 | the two mixed words and two others add up to the next schedule word, in the code's order of addition |
| `Sha256.FirstTemporary` | rigs/tls-smoke/patches/sha256.c:51-55 | h, the large sigma, the choice, constant and word add up to T1 |
| `Sha256.SecondTemporary` | rigs/tls-smoke/patches/sha256.c:53-56 | the other large sigma and the majority add up to T2 |
| `Sha256.Context.PadBuffer` | rigs/tls-smoke/patches/sha256.c:86-96 | absorbed blocks, buffer and stored length together are the section 5.1.1 padding, with one or two closing blocks |
| `Sha256.Context.PutLength` | rigs/tls-smoke/patches/sha256.c:97-105 | the last eight bytes are the 64-bit length, most significant first |
| `Sha256.Context.PutDigest` | rigs/tls-smoke/patches/sha256.c:107-116 | column-wise output equals the state words, each most significant byte first |
| `Sha256.Context.Final` | rigs/tls-smoke/patches/sha256.c:86-117 | the first 32 output bytes are the digest of everything absorbed; later bytes are untouched |
| `Sha256Spec.Pad` | rigs/tls-smoke/patches/sha256.c:86-106 | padding always ends at a 64-byte boundary |
| `Sha256Spec.PadInjective` | rigs/tls-smoke/patches/sha256.c:86-106 | different messages have different paddings, whatever their lengths |
| `Sha256Spec.PadShort` | rigs/tls-smoke/patches/sha256.c:88-90 | tails under 56 bytes are closed within their block |
| `Sha256Spec.PadLong` | rigs/tls-smoke/patches/sha256.c:91-96 | longer tails spill into a second block of zeros and length |
| `Sha256Spec.Length64Wraps` | rigs/tls-smoke/patches/sha256.c:97-105 | keeping the bit count modulo 2^64 stores the same length bytes as keeping it exactly |
| `Sha256Spec.FoldBlock` | rigs/tls-smoke/patches/sha256.c:75-83 | folding one more block is one compression of the fold so far |
| `Sha256Spec.RegistersAreDelays` | rigs/tls-smoke/patches/sha256.c:50-59 | after t rounds the eight registers are the last four values of two recurrences, an independent form of the rounds without rotation |
| `Sha256Laws.ChChooses` | rigs/tls-smoke/patches/sha256.c:52 | each bit of Ch is that of y where x is one and that of z where x is zero |
| `Sha256Laws.MajDecides` | rigs/tls-smoke/patches/sha256.c:54 | each bit of Maj is the common bit of x and y where they agree and that of z where they do not |
| `Sha256Laws.BigSigma0Bit` | rigs/tls-smoke/patches/sha256.c:53 | bit i is the exclusive or of the bits 2, 13 and 22 places above it, around the end of the word |
| `Sha256Laws.BigSigma1Bit` | rigs/tls-smoke/patches/sha256.c:51 | bit i is the exclusive or of the bits 6, 11 and 25 places above it |
| `Sha256Laws.SmallSigma0Bit` | rigs/tls-smoke/patches/sha256.c:43 | bit i is the exclusive or of the bits 7 and 18 places above it, around the end, and 3 places above it, if there is one |
| `Sha256Laws.SmallSigma1Bit` | rigs/tls-smoke/patches/sha256.c:44 | the same with 17, 19 and 10 places |
| `Sha256Laws.K0` | rigs/tls-smoke/patches/sha256.c:22 | the first eight round constants are the 32 bits after the point of the cube roots of the primes 2 to 19 |
| `Sha256Laws.K1` | rigs/tls-smoke/patches/sha256.c:23 | the next eight, of the primes 23 to 53 |
| `Sha256Laws.K2` | rigs/tls-smoke/patches/sha256.c:24 | of the primes 59 to 89 |
| `Sha256Laws.K3` | rigs/tls-smoke/patches/sha256.c:25 | of the primes 97 to 131 |
| `Sha256Laws.K4` | rigs/tls-smoke/patches/sha256.c:26 | of the primes 137 to 173 |
| `Sha256Laws.K5` | rigs/tls-smoke/patches/sha256.c:27 | of the primes 179 to 223 |
| `Sha256Laws.K6` | rigs/tls-smoke/patches/sha256.c:28 | of the primes 227 to 263 |
| `Sha256Laws.K7` | rigs/tls-smoke/patches/sha256.c:29 | of the primes 269 to 311 |
| `Sha256Laws.H0Roots` | rigs/tls-smoke/patches/sha256.c:67-70 | the initial hash value is the 32 bits after the point of the square roots of the first eight primes |
| `Sha256Laws.ScheduleLaw` | rigs/tls-smoke/patches/sha256.c:37-46 | a schedule word is a block word, or the sum of section 6.2.2 over four earlier ones |
| `Sha256Laws.RoundLaw` | rigs/tls-smoke/patches/sha256.c:50-59 | one round in terms of the sigmas, Ch and Maj: two new registers and six moved along |
| `Sha256Laws.CompressLaw` | rigs/tls-smoke/patches/sha256.c:60-62 | each state word is the old one plus that of the 64 rounds |
| `Sha256Laws.WordAtBytes` | rigs/tls-smoke/patches/sha256.c:39-40 | a block word holds its four bytes, the first on top |
| `Sha256Laws.WordBytesOrder` | rigs/tls-smoke/patches/sha256.c:107-116 | a digest word is written top byte first |
| `Sha256Laws.PadLaw` | rigs/tls-smoke/patches/sha256.c:86-105 | place by place: message, 0x80, zeros, and the bit length modulo 2^64; the shortest that ends a block |
| `Sha256Laws.DigestLaw` | rigs/tls-smoke/patches/sha256.c:86-117 | up to 55 bytes, the digest is one compression of the initial hash value with the padded message |
| `Hmac.MacPieces` | src/freedos_micro_python/port/libssh2_axtls.c:239-308 | init, any chunking of the message, final: the section 2 MAC of RFC 2104; refused exactly for unknown algorithms and for keys that overrun the key buffer |
| `Hmac.HmacInit` | src/freedos_micro_python/port/libssh2_axtls.c:239-249 | a context exactly for the five algorithms and the keys that do not overrun the key buffer |
| `Hmac.KeyOverrunsExactly` | src/freedos_micro_python/port/libssh2_axtls.c:257-262 | the signed comparison copies an unhashed key over the 128-byte buffer if and only if the key has 2^31 bytes or more |
| `Hmac.HmacCtx.constructor` | src/freedos_micro_python/port/libssh2_axtls.c:250-273 | inner hash holds K' xor ipad, the stored block is K' xor opad, with K' the hashed-if-long, zero-filled key |
| `Hmac.PrepareKey` | src/freedos_micro_python/port/libssh2_axtls.c:254-262 | the key buffer is K' of RFC 2104, or the copy leaves it, exactly for the keys whose length looks negative |
| `Hmac.PadKey` | src/freedos_micro_python/port/libssh2_axtls.c:264-269 | both pads are byte-wise exclusive ors of the key block |
| `Hmac.HmacCtx.Update` | src/freedos_micro_python/port/libssh2_axtls.c:296-298 | the bytes are appended to the message behind the inner pad |
| `Hmac.HmacCtx.Final` | src/freedos_micro_python/port/libssh2_axtls.c:300-308 | the outer hash of opad and inner digest is the MAC of the message |
| `Hmac.HashCtx.Update` | src/freedos_micro_python/port/libssh2_axtls.c:170-210 | any chunking reaches the hash as one concatenated message |
| `Hmac.HashCtx.Final` | src/freedos_micro_python/port/libssh2_axtls.c:212-221 | the digest of everything absorbed, of the length of the algorithm |
| `Hmac.HashOnce` | src/freedos_micro_python/port/libssh2_axtls.c:223-228 | one-shot digest, failing exactly for unknown algorithms |
| `Hmac.MacSha256` | src/freedos_micro_python/port/libssh2_axtls.c:244-308 | with SHA-256 the MAC is closed: two FIPS 180-4 digests and nothing else |
| `Hmac.MacSha1` | src/freedos_micro_python/port/libssh2_axtls.c:243 | with SHA-1: blocks of 64 bytes and 20 bytes of digest |
| `Hmac.MacSha384` | src/freedos_micro_python/port/libssh2_axtls.c:245 | with SHA-384: blocks of 128 bytes and 48 bytes of digest |
| `Hmac.MacSha512` | src/freedos_micro_python/port/libssh2_axtls.c:246 | with SHA-512: blocks of 128 bytes and 64 bytes of digest |
| `Hmac.MacMd5` | src/freedos_micro_python/port/libssh2_axtls.c:247 | with MD5: blocks of 64 bytes and 16 bytes of digest |
| `Hmac.Algorithms` | src/freedos_micro_python/port/libssh2_axtls.h:115-119 | the five algorithm numbers and digest sizes |
| `Hmac.ZeroPaddedKeys` | src/freedos_micro_python/port/libssh2_axtls.c:254-262 | zero bytes added to a key within a block do not change the MAC |
| `AesCtr.Context.Crypt` | src/freedos_micro_python/port/libssh2_axtls.c:354-393 | for every block function: byte i is XORed with byte i mod 16 of E(counter + i/16), the rest is untouched, and the counter ends at counter + ceil(len/16) mod 2^128 |
| `AesCtr.KeyBlockNumber` | src/freedos_micro_python/port/libssh2_axtls.c:370-382 | the cipher is given the block whose number is the counter modulo 2^128, and the sixteen key bytes are the number of its answer, most significant first |
| `AesCtr.ToBlockNumber` | src/freedos_micro_python/port/libssh2_axtls.c:371-376 | the four words given to the cipher are the counter, its most significant word first |
| `AesCtr.BlockBytesNumber` | src/freedos_micro_python/port/libssh2_axtls.c:377-382 | the sixteen bytes stored are the four words, the first one on top |
| `AesCtr.BlockNumberInjective` | src/freedos_micro_python/port/libssh2_axtls.c:371-376 | a block is known by its number |
| `AesCtr.CtrAt` | src/freedos_micro_python/port/libssh2_axtls.c:383-387 | place i of the message meets place i mod 16 of the key block i / 16 further on |
| `AesCtr.Context.NextKeyBlock` | src/freedos_micro_python/port/libssh2_axtls.c:370-382 | load, swap, encrypt, swap, store gives E of the counter as a big-endian number |
| `AesCtr.Context.Bump` | src/freedos_micro_python/port/libssh2_axtls.c:388-392 | the byte-carry loop adds one modulo 2^128 |
| `AesCtr.Context.XorInto` | src/freedos_micro_python/port/libssh2_axtls.c:383-387 | exactly the bytes of this block are combined with the key stream |
| `AesCtr.IncrementAdds` | src/freedos_micro_python/port/libssh2_axtls.c:388-392 | carrying byte by byte is addition of one on the big-endian value, at any width |
| `AesCtr.LoadSwapped` | src/freedos_micro_python/port/libssh2_axtls.c:371-375 | a little-endian load and a byte swap read a big-endian word |
| `AesCtr.StoreSwapped` | src/freedos_micro_python/port/libssh2_axtls.c:377-382 | a byte swap and a little-endian store write a big-endian word |
| `AesCtr.CtrUndo` | src/freedos_micro_python/port/libssh2_axtls.c:354-393 | applying the mode twice from one counter value gives the message back |
| `AesCtr.CallsUndo` | src/freedos_micro_python/port/libssh2_axtls.c:354-393 | a receiver with the same key and counter recovers every one of any list of calls |
| `AesCtr.Exchange` | src/freedos_micro_python/port/libssh2_axtls.c:354-393 | what a sending context produces is counter mode of every call, a receiving context recovers every call from it, and both counters advance by the blocks of all calls |
| `AesCtr.CtrSplit` | src/freedos_micro_python/port/libssh2_axtls.c:369-393 | two calls cut at a multiple of 16 equal one call |
| `AesCtr.CtrSplitExactly` | src/freedos_micro_python/port/libssh2_axtls.c:369-393 | for every block function two calls equal one call if and only if the cut is at a block boundary or the second part is empty |
| `AesCtr.CtrSplitFails` | src/freedos_micro_python/port/libssh2_axtls.c:384-392 | for every other cut a concrete block function tells the two apart |
| `AesCtr.CounterBlockInjective` | src/freedos_micro_python/port/libssh2_axtls.c:371-375 | counter values that differ modulo 2^128 reach the block function as different blocks |
| `AesCtr.CipherInit` | src/freedos_micro_python/port/libssh2_axtls.c:323-352 | rejects exactly the 192-bit and unknown algorithms; counter mode never inverts the key schedule, in either direction |
| `Bits.XorByteBit` | src/freedos_micro_python/port/libssh2_axtls.c:386 | exclusive or of two bytes adds them bit by bit modulo 2 |
| `ByteNumber.Run` | src/freedos_micro_python/port/libssh2_axtls.c:909-952 | for every sequence of assignments and every outcome of its allocations: the minimal form of the number that these determine, in the capacity that these determine |
| `ByteNumber.LastHeld` | src/freedos_micro_python/port/libssh2_axtls.c:920-952 | the last value asked for is held if and only if its digits fit the capacity or malloc succeeds, or a failed call leaves it by chance |
| `ByteNumber.AlwaysHeld` | src/freedos_micro_python/port/libssh2_axtls.c:920-952 | without a failed malloc the number is the last value asked for |
| `ByteNumber.HeldFits` | src/freedos_micro_python/port/libssh2_axtls.c:909-952 | the digits never exceed the capacity, and the capacity never shrinks |
| `ByteNumber.OpExactly` | src/freedos_micro_python/port/libssh2_axtls.c:920-952 | each assignment by cases: value and capacity after it, for every outcome of malloc |
| `ByteNumber.Number.Ensure` | src/freedos_micro_python/port/libssh2_axtls.c:909-918 | succeeds if and only if the capacity suffices or malloc does; then the capacity is as needed, else nothing changed |
| `ByteNumber.Number.SetWord` | src/freedos_micro_python/port/libssh2_axtls.c:920-937 | the word, or zero exactly when its minimal digits exceed the capacity and malloc fails |
| `ByteNumber.Digits` | src/freedos_micro_python/port/libssh2_axtls.c:923-930 | the digit loop yields the one minimal big-endian form of the word |
| `ByteNumber.Number.FromBin` | src/freedos_micro_python/port/libssh2_axtls.c:939-952 | the value of the bytes; -1 exactly for a negative length or when the stripped digits exceed the capacity and malloc fails, which leaves the number alone |
| `ByteNumber.Number.ToBin` | src/freedos_micro_python/port/libssh2_axtls.c:954-959 | the minimal big-endian bytes of the value, and nothing beyond them |
| `ByteNumber.Number.Bits` | src/freedos_micro_python/port/libssh2_axtls.c:961-976 | zero exactly for zero; otherwise 2^(bits-1) <= value < 2^bits, and the byte count is ceil(bits/8) |
| `ByteNumber.MinimalUnique` | src/freedos_micro_python/port/libssh2_axtls.c:885-888 | each number has one form without leading zeros |
| `ByteNumber.MinimalForm` | src/freedos_micro_python/port/libssh2_axtls.c:923-947 | bytes without leading zeros are the minimal form of their value, so both ways of stripping agree |
| `ByteNumber.MinimalBounds` | src/freedos_micro_python/port/libssh2_axtls.c:961-976 | n minimal bytes denote a number from 256^(n-1) up to 256^n |
| `ByteNumber.TopBits` | src/freedos_micro_python/port/libssh2_axtls.c:966-976 | the bits of the first byte place the whole number between two powers of two |
| `ByteNumber.StripZero` | src/freedos_micro_python/port/libssh2_axtls.c:942-947 | dropping a leading zero byte keeps the value |
| `Calendar.CivilExactly` | src/freedos_micro_python/port/time_real_uc386dos.c:28-38 | for every valid date from year 0 on: the formula is the count of days from 1970-01-01 by summed year and month lengths if and only if the date is neither in January or February of year 0 nor after 5881580-07-11 |
| `Calendar.CivilTruncated` | src/freedos_micro_python/port/time_real_uc386dos.c:30-38 | from March of year 0 on the formula is the day count cut to 32 bits |
| `Calendar.YearZeroStart` | src/freedos_micro_python/port/time_real_uc386dos.c:31-37 | in January and February of year 0 the truncating division yields a day after 1970 |
| `Calendar.EraSplit` | src/freedos_micro_python/port/time_real_uc386dos.c:32-37 | 400-year eras and the year of era give the same sum as counting leap years |
| `Calendar.DaysToMarch` | src/freedos_micro_python/port/time_real_uc386dos.c:31-37 | summed year lengths up to 1 March in closed form |
| `Calendar.MonthFormula` | src/freedos_micro_python/port/time_real_uc386dos.c:34-35 | (153 m + 2) / 5 counts the days of the months since March |
| `Calendar.NextDayCounts` | src/freedos_micro_python/port/time_real_uc386dos.c:30-38 | the counted days rise by one per calendar day |
| `Calendar.CivilMonotone` | src/freedos_micro_python/port/time_real_uc386dos.c:30-38 | later dates have larger day counts |
| `Calendar.CodeNextDay` | src/freedos_micro_python/port/time_real_uc386dos.c:30-38 | on exactly those dates the code rises by one per calendar day, over month and year ends and leap days |
| `Calendar.CodeMonotone` | src/freedos_micro_python/port/time_real_uc386dos.c:30-38 | on them later dates have larger results, so the code is injective |
| `Calendar.LastDay` | src/freedos_micro_python/port/time_real_uc386dos.c:37 | 5881580-07-11 is day 2^31 - 1 |
| `Calendar.MktimeTruncated` | src/freedos_micro_python/port/time_real_uc386dos.c:73-84 | mktime is the exact second count cut to 32 bits, whatever overflows on the way |
| `Calendar.MktimeExactly` | src/freedos_micro_python/port/time_real_uc386dos.c:73-84 | of all valid date-times from year 1 on, the result is exact if and only if the moment is from 1901-12-13 20:45:52 to 2038-01-19 03:14:07 |
| `Calendar.MktimeMonotone` | src/freedos_micro_python/port/time_real_uc386dos.c:73-84 | between these two moments results are ordered exactly as the date-times are |
| `Calendar.SecondsMonotone` | src/freedos_micro_python/port/time_real_uc386dos.c:73-84 | the second count is strictly increasing in valid date-times |
| `Calendar.SecondsOrdered` | src/freedos_micro_python/port/time_real_uc386dos.c:73-84 | a moment is earlier if and only if its second count is smaller |
| `Calendar.LastLong` | src/freedos_micro_python/port/time_real_uc386dos.c:73-84 | 2038-01-19 03:14:07 is second 2^31 - 1 |
| `Calendar.FirstLong` | src/freedos_micro_python/port/time_real_uc386dos.c:73-84 | 1901-12-13 20:45:52 is second -2^31 |
| `Calendar.EpochNowIsMktime` | src/freedos_micro_python/port/time_real_uc386dos.c:40-47 | the clock arithmetic agrees with mktime on every reading, valid or not |
| `Calendar.ValidTmExactly` | src/freedos_micro_python/port/time_real_uc386dos.c:73-84 | which date-times the statements are about: every field in its calendar range |
| `Ne2000.Run` | src/freedos_micro_python/port/pktdrv_uc386dos.c:292-329 | every interleaving of arrivals and polls, with further arrivals inside the polls, leaves the queue and returns the results of a plain packet FIFO |
| `Ne2000.FifoConserves` | src/freedos_micro_python/port/pktdrv_uc386dos.c:292-329 | over every run what was taken, then what is queued, is what was accepted: in order, once each, none lost |
| `Ne2000.DeliveredPackets` | src/freedos_micro_python/port/pktdrv_uc386dos.c:292-329 | on the results: the poll that took the k-th packet returned the k-th accepted packet, cut to its own maxlen |
| `Ne2000.StepConserves` | src/freedos_micro_python/port/pktdrv_uc386dos.c:292-329 | each single step keeps that equation, with arrivals at any of the three points of a poll |
| `Ne2000.DoPoll` | src/freedos_micro_python/port/pktdrv_uc386dos.c:292-329 | a poll on driver and NIC is the poll step of the FIFO and returns what the FIFO logs |
| `Ne2000.Driver.InitDirect` | src/freedos_micro_python/port/pktdrv_uc386dos.c:177-246 | fails exactly without a NIC or when RST shows only at the last reading; otherwise the registers describe an empty ring with word transfers, no interrupts and the address filter, and the address is every second PROM byte, set in PAR0 to PAR5 |
| `Ne2000.Driver.AwaitReset` | src/freedos_micro_python/port/pktdrv_uc386dos.c:183-189 | the answer is right if and only if RST shows before the last reading: a NIC that never resets passes, one that resets last is refused |
| `Ne2000.ResetWitnesses` | src/freedos_micro_python/port/pktdrv_uc386dos.c:184-186 | readings without RST, which pass, and readings with RST at the last one, which are refused |
| `Ne2000.Driver.SetupRing` | src/freedos_micro_python/port/pktdrv_uc386dos.c:205-215 | ring bounds, BNRY, word transfers, monitor and loopback mode, interrupts cleared and masked; nothing else changes |
| `Ne2000.Driver.ReadMac` | src/freedos_micro_python/port/pktdrv_uc386dos.c:217-233 | the six address bytes come from the even bytes of the PROM image |
| `Ne2000.Driver.SetAddress` | src/freedos_micro_python/port/pktdrv_uc386dos.c:230-233 | the six address registers hold the address, in order |
| `Ne2000.Driver.StartReceiver` | src/freedos_micro_python/port/pktdrv_uc386dos.c:234-244 | CURR is one page above BNRY, no multicast, broadcasts accepted, and the NIC is started on page 0 |
| `Ne2000.Driver.PollRx` | src/freedos_micro_python/port/pktdrv_uc386dos.c:292-329 | takes the first queued packet, once, with good-status bodies cut to maxlen and, behind an odd count, the next NIC byte; returns 0 exactly when the driver is off, nothing was queued, or the first packet is bad, empty or without room; page 0 is selected and BNRY in 0x46..0x7F afterwards |
| `Ne2000.ZeroReply` | src/freedos_micro_python/port/pktdrv_uc386dos.c:290-304 | 0 means that nothing is pending if and only if the first packet, if any, is good and not empty and maxlen is not 0 |
| `Ne2000.BadPacketSilent` | src/freedos_micro_python/port/pktdrv_uc386dos.c:314-319 | a packet with a bad status is pending and its poll returns 0 |
| `Ne2000.CapExactly` | src/freedos_micro_python/port/pktdrv_uc386dos.c:290-319 | no byte at or above maxlen is stored if and only if the packet is bad, or shorter than maxlen, or maxlen is even |
| `Ne2000.CapOverrun` | src/freedos_micro_python/port/pktdrv_uc386dos.c:290-319 | a frame of 60 bytes polled with room for 59 is stored whole |
| `Ne2000.Driver.TakePacket` | src/freedos_micro_python/port/pktdrv_uc386dos.c:307-329 | header, body and BNRY all refer to the packet that was first, though frames arrive in between |
| `Ne2000.Driver.LookCurr` | src/freedos_micro_python/port/pktdrv_uc386dos.c:294-298 | CURR differs from the first page of the queue exactly when a packet waits at the time of the look |
| `Ne2000.Driver.NextPage` | src/freedos_micro_python/port/pktdrv_uc386dos.c:299-301 | the page above BNRY, wrapping, is the first page of the queue |
| `Ne2000.Driver.ReadCurr` | src/freedos_micro_python/port/pktdrv_uc386dos.c:294-298 | CURR is read through page 1 and page 0 is selected again |
| `Ne2000.Driver.ReadHeader` | src/freedos_micro_python/port/pktdrv_uc386dos.c:307-312 | status, next page and length of the first packet |
| `Ne2000.Driver.CopyBody` | src/freedos_micro_python/port/pktdrv_uc386dos.c:312-319 | good packets only, cut to maxlen and rounded up to a word |
| `Ne2000.Driver.ReadBody` | src/freedos_micro_python/port/pktdrv_uc386dos.c:315-317 | the body prefix, also across the end of the ring, and for an odd count the byte after it |
| `Ne2000.Driver.Advance` | src/freedos_micro_python/port/pktdrv_uc386dos.c:321-327 | moving BNRY below the next page, wrapping, removes exactly the first packet; PRX, RXE and OVW are cleared |
| `Ne2000.Driver.DmaRead` | src/freedos_micro_python/port/pktdrv_uc386dos.c:146-161 | the programmed bytes arrive, rounded up to words, and only DMA registers change |
| `Ne2000.Driver.StartRead` | src/freedos_micro_python/port/pktdrv_uc386dos.c:147-153 | six register writes program address and count |
| `Ne2000.Driver.AwaitRdc` | src/freedos_micro_python/port/pktdrv_uc386dos.c:155-160 | the bounded wait ends with RDC acknowledged |
| `Ne2000.Nic.Insw` | src/freedos_micro_python/port/pktdrv_uc386dos.c:154 | word reads from the data port run upwards through NIC memory and wrap at the ring end |
| `Ne2000.Driver.Receive` | src/freedos_micro_python/port/pktdrv_uc386dos.c:136-141 | the NIC stores a frame behind the queue exactly when it is for its address or for all and does not run into BNRY |
| `Ne2000.ReceiveHolds` | src/freedos_micro_python/port/pktdrv_uc386dos.c:136-141 | a stored frame becomes the last of the page chain, and the queued ones stay intact |
| `Ne2000.ReceiveKeeps` | src/freedos_micro_python/port/pktdrv_uc386dos.c:136-141 | a stored frame changes no byte of the pages in use |
| `Ne2000.FreePagesExactly` | src/freedos_micro_python/port/pktdrv_uc386dos.c:211-213 | the pages between CURR and BNRY are those the queue does not use |
| `Ne2000.EmptyExactly` | src/freedos_micro_python/port/pktdrv_uc386dos.c:299-304 | the page above BNRY meets CURR if and only if nothing is queued |
| `Ne2000.PopHolds` | src/freedos_micro_python/port/pktdrv_uc386dos.c:321-326 | the new BNRY describes the chain without its first packet |
| `Ne2000.EnqueuePrefix` | src/freedos_micro_python/port/pktdrv_uc386dos.c:292-329 | arrivals never disturb what is queued already |
| `Ne2000.EnqueueExactly` | src/freedos_micro_python/port/pktdrv_uc386dos.c:136-141 | a frame is queued exactly when its first six bytes are the station address or all ones and at most 57 pages are used |
| `Ne2000.PageZero` | src/freedos_micro_python/port/pktdrv_uc386dos.c:114-130 | the registers of page 0 by offset |
| `Ne2000.PageOne` | src/freedos_micro_python/port/pktdrv_uc386dos.c:131-133 | the registers of page 1 by offset, and the command register |
| `Ne2000.ControlBits` | src/freedos_micro_python/port/pktdrv_uc386dos.c:205-244 | which command, receive and data bits make the NIC receive, filter and move words |
| `Ne2000.WordTransfer` | src/freedos_micro_python/port/pktdrv_uc386dos.c:146-154 | one word of a remote read: address, wrap, count and RDC |
| `Ne2000Ring.ChainExtend` | src/freedos_micro_python/port/pktdrv_uc386dos.c:136-141 | writing a packet into free ring pages, wrapping, extends the chain by that packet |
| `Ne2000Ring.ChainFrame` | src/freedos_micro_python/port/pktdrv_uc386dos.c:136-141 | a chain depends only on the pages it occupies |
| `Ne2000Ring.ImageExactly` | src/freedos_micro_python/port/pktdrv_uc386dos.c:309-311 | the four header bytes before a stored frame |
| `Ne2000Ring.Geometry` | src/freedos_micro_python/port/pktdrv_uc386dos.c:136-141 | pages 0x46 to 0x7F, 58 of them, 14848 bytes |
| `RxStub.StubAnswers` | src/freedos_micro_python/port/pktdrv_uc386dos.c:456-504 | from any registers, flags and memory the machine code returns, with exactly the effect the calling convention asks for and no other memory change |
| `RxStub.AnswerExactly` | src/freedos_micro_python/port/pktdrv_uc386dos.c:456-468 | in numbers: the word at 0x40, the length at 0x42, the segment at 0x44, 1518 bytes |
| `RxStub.RegisterForms` | src/freedos_micro_python/port/pktdrv_uc386dos.c:470-503 | the encodings of the register instructions, for every register |
| `RxStub.MemoryForms` | src/freedos_micro_python/port/pktdrv_uc386dos.c:470-503 | the encodings with a CS prefix, for every displacement |
| `RxStub.ShortForms` | src/freedos_micro_python/port/pktdrv_uc386dos.c:470-503 | jumps, nop and far return |
| `RxStub.RegisterEffects` | src/freedos_micro_python/port/pktdrv_uc386dos.c:470-503 | what each register instruction and jump does, flags included |
| `RxStub.MemoryEffects` | src/freedos_micro_python/port/pktdrv_uc386dos.c:470-503 | what each memory instruction does |
| `RxStub.RunEntry` | src/freedos_micro_python/port/pktdrv_uc386dos.c:475-476 | the phase test branches on AX |
| `RxStub.RunLengthTest` | src/freedos_micro_python/port/pktdrv_uc386dos.c:477-490 | the disabled pending test has no effect; frames up to 1518 bytes go on |
| `RxStub.RunAccept` | src/freedos_micro_python/port/pktdrv_uc386dos.c:491-495 | the length is stored and ES:DI is the bounce segment at offset 0 |
| `RxStub.RunDrop` | src/freedos_micro_python/port/pktdrv_uc386dos.c:496-500 | ES:DI is 0:0 and memory is unchanged |
| `RxStub.RunPhase1` | src/freedos_micro_python/port/pktdrv_uc386dos.c:501-503 | the pending word becomes 1 |
| `RxStub.StaysLoaded` | src/freedos_micro_python/port/pktdrv_uc386dos.c:462-468 | the data words lie outside the code |
| `RxStub.Install` | src/freedos_micro_python/port/pktdrv_uc386dos.c:505-514 | the thunk holds the code, cleared words and the bounce segment; its other bytes stay |
| `RxStub.SlotStep` | src/freedos_micro_python/port/pktdrv_uc386dos.c:462-503 | each call of the code and each drain is one step of a single slot |
| `RxStub.SlotRun` | src/freedos_micro_python/port/pktdrv_uc386dos.c:462-503 | over every run the code stays intact, the words stand for the slot, the length never exceeds a frame, nothing else changes |
| `StubReceiver.RunEvents` | src/freedos_micro_python/port/pktdrv_uc386dos.c:1388-1435 | machine code, driver copy and drain together return what a newest-wins slot does over every run |
| `StubReceiver.DeliveredInOrder` | src/freedos_micro_python/port/pktdrv_uc386dos.c:478-487 | the frames taken are a subsequence of those that arrived, none twice, always the newest |
| `StubReceiver.DeliveredFrames` | src/freedos_micro_python/port/pktdrv_uc386dos.c:1415-1435 | on the results: the k-th frame delivered is an arrived frame cut to the maxlen of its receive, and a later one than the frame before |
| `StubReceiver.ArrivalExactly` | src/freedos_micro_python/port/pktdrv_uc386dos.c:489-495 | a frame of up to 1518 bytes takes the slot, a longer one is not seen |
| `StubReceiver.Receiver.Arrive` | src/freedos_micro_python/port/pktdrv_uc386dos.c:456-504 | a frame of at most 1518 bytes replaces the waiting one; a longer one changes nothing |
| `StubReceiver.Receiver.PollStub` | src/freedos_micro_python/port/pktdrv_uc386dos.c:1392-1413 | moves the waiting frame only when the last one was consumed; empty frames are discarded |
| `StubReceiver.Receiver.Recv` | src/freedos_micro_python/port/pktdrv_uc386dos.c:1415-1435 | the frame already moved, else the waiting one, once, cut to maxlen |
| `PktReceiver.Run` | src/freedos_micro_python/port/pktdrv_uc386dos.c:916-943 | any legal interleaving of offers, fills and receives has the results of a single slot |
| `PktReceiver.NothingOverwritten` | src/freedos_micro_python/port/pktdrv_uc386dos.c:916-943 | accepted frames are those drained, in order and once each, then at most one waiting |
| `PktReceiver.DrainedFrames` | src/freedos_micro_python/port/pktdrv_uc386dos.c:1424-1435 | on the results: the receive that took the k-th frame returned the k-th accepted frame, cut to its maxlen |
| `PktReceiver.OfferExactly` | src/freedos_micro_python/port/pktdrv_uc386dos.c:917-921 | an offer is turned down exactly when a frame waits or the length is over 1518 |
| `PktReceiver.Receiver.Phase0` | src/freedos_micro_python/port/pktdrv_uc386dos.c:916-934 | refused if and only if a frame is undrained or the length exceeds 1518 |
| `PktReceiver.Receiver.Deliver` | src/freedos_micro_python/port/pktdrv_uc386dos.c:935-943 | after phase 1 the slot holds the driver's frame, by way of the bounce buffer or not |
| `PktReceiver.Receiver.Phase1` | src/freedos_micro_python/port/pktdrv_uc386dos.c:935-942 | the promised bytes are in the receive buffer and marked pending |
| `PktReceiver.Receiver.Recv` | src/freedos_micro_python/port/pktdrv_uc386dos.c:1424-1435 | the pending frame once, cut to maxlen; otherwise nothing changes |
| `ByteRing.Run` | rigs/tls-smoke/main.c:84-189 | every mixture of chain arrivals, blocking reads with what they pump and reads that do not block, on the 4096-byte ring with counters wrapping at 2^32, delivers what a bounded byte FIFO does |
| `ByteRing.FifoConserves` | rigs/tls-smoke/main.c:84-189 | over every such run delivered then waiting bytes are the accepted bytes, and never more than 4096 wait |
| `ByteRing.Sock.RecvCb` | rigs/tls-smoke/main.c:91-129 | a chain is appended whole or refused without a trace; FIN and errors are as lwIP expects |
| `ByteRing.Sock.Append` | rigs/tls-smoke/main.c:107-124 | the payloads of the chain follow the stream in order |
| `ByteRing.Sock.CopyIn` | rigs/tls-smoke/main.c:112-121 | one or two copies write exactly the ring positions of the payload |
| `ByteRing.Sock.ReadNb` | rigs/tls-smoke/main.c:173-189 | the front of the stream, at most max bytes; -1 while open and 0 once closed when nothing waits |
| `ByteRing.Sock.Drain` | rigs/tls-smoke/main.c:153-163 | the bytes handed out leave the stream and head moves past them, wrapping |
| `ByteRing.Sock.CopyOut` | rigs/tls-smoke/main.c:154-161 | one or two copies read the front of the stream |
| `ByteRing.SockRead` | rigs/tls-smoke/main.c:148-169 | stops at the first data, FIN or timeout that the pumps bring; then returns 0 on a timeout and otherwise the smaller of max and what waits, from the front; what it does not hand out stays |
| `ByteRing.ZeroExactly` | rigs/tls-smoke/main.c:143-169 | 0 means end of stream if and only if the first stop is not a timeout before the end; on an open socket 0 is returned exactly at a timeout |
| `ByteRing.TimeoutWithData` | rigs/tls-smoke/main.c:165-167 | one pump that brings a byte and runs out of time: 0, with the byte waiting and the socket open |
| `ByteRing.ExpiredExactly` | rigs/tls-smoke/main.c:167 | time is out from 181 ticks on and not at 180, also when the tick count wraps |
| `ByteRing.StopsExactly` | rigs/tls-smoke/main.c:150-168 | the three reasons to stop, written out |
| `ByteRing.AcceptExactly` | rigs/tls-smoke/main.c:93-128 | a chain is appended exactly when no error came with it and it fits in 4096 bytes; nothing at all means FIN |
| `ByteRing.DoCallback` | rigs/tls-smoke/main.c:91-129 | the callback is the arrival step of the FIFO |
| `ByteRing.DoRead` | rigs/tls-smoke/main.c:148-169 | the blocking read is the blocking step of the FIFO, with the arrivals it pumps |
| `ByteRing.DoReadNow` | rigs/tls-smoke/main.c:173-189 | the read that does not block is the delivery step of the FIFO |
| `ByteRing.PumpsConserve` | rigs/tls-smoke/main.c:91-129 | the callbacks of any number of pumps lose and repeat nothing |
| `ByteRing.SlotWraps` | rigs/tls-smoke/main.c:108 | a counter wrapped at 2^32 has the buffer index of the unwrapped one |
| `ByteRing.WriteExtends` | rigs/tls-smoke/main.c:107-125 | writing behind the stream extends it while all of it fits |
| `UrlCodec.ParseEncode` | src/freedos_micro_python/port/urllib_parse_uc386dos.c:236-341 | for every list of pairs, parsing the encoded list gives it back in order, less the empty keys and, unless kept, the empty values |
| `UrlCodec.ParseEncodedPair` | src/freedos_micro_python/port/urllib_parse_uc386dos.c:236-256 | one encoded pair parses to itself or is dropped, and holds no separator |
| `UrlCodec.QuoteReversible` | src/freedos_micro_python/port/urllib_parse_uc386dos.c:53-142 | every string survives quote and unquote if and only if the safe set lacks % and, in plus mode, + |
| `UrlCodec.UnquoteQuote` | src/freedos_micro_python/port/urllib_parse_uc386dos.c:53-142 | under such a safe set unquote inverts quote on all byte strings |
| `UrlCodec.QuoteWitness` | src/freedos_micro_python/port/urllib_parse_uc386dos.c:77-94 | under any other safe set "%41" or "+" does not come back |
| `UrlCodec.QuotedPlain` | src/freedos_micro_python/port/urllib_parse_uc386dos.c:27-97 | quoted text holds no & ; = and is empty only for the empty string |
| `UrlCodec.QuoteInner` | src/freedos_micro_python/port/urllib_parse_uc386dos.c:53-97 | the loop computes the byte-wise quoting |
| `UrlCodec.Passthrough` | src/freedos_micro_python/port/urllib_parse_uc386dos.c:76-87 | the safe loop decides membership, with / safe by default in plain mode only |
| `UrlCodec.DoUnquote` | src/freedos_micro_python/port/urllib_parse_uc386dos.c:116-142 | the loop computes the recursive unquoting, malformed escapes passed through |
| `UrlCodec.UrlEncode` | src/freedos_micro_python/port/urllib_parse_uc386dos.c:236-292 | the pairs, quoted, with separators between them only |
| `UrlCodec.ParseSegment` | src/freedos_micro_python/port/urllib_parse_uc386dos.c:319-337 | one segment between separators, split at its first = |
| `UrlCodec.ParseQsl` | src/freedos_micro_python/port/urllib_parse_uc386dos.c:297-341 | the pairs of all segments in order, for any query string |
| `UrlCodec.HexDigit` | src/freedos_micro_python/port/urllib_parse_uc386dos.c:35-47 | reading a written hexadecimal digit gives its value |
| `UrlCodec.HexDigits` | src/freedos_micro_python/port/urllib_parse_uc386dos.c:35-40 | the digits of both cases, by their place in the written-out lists |
| `UrlCodec.HexExactly` | src/freedos_micro_python/port/urllib_parse_uc386dos.c:35-40 | nothing else is a digit |
| `UrlCodec.HexDigitUpper` | src/freedos_micro_python/port/urllib_parse_uc386dos.c:42-47 | what is written is the upper-case digit |
| `UrlCodec.UnreservedExactly` | src/freedos_micro_python/port/urllib_parse_uc386dos.c:27-33 | the 66 unreserved bytes, written out |
| `UrlCodec.QuoteByteExactly` | src/freedos_micro_python/port/urllib_parse_uc386dos.c:76-94 | a byte is quoted as itself, as + or as % and two upper-case digits |
| `UrlCodec.UnquoteEscape` | src/freedos_micro_python/port/urllib_parse_uc386dos.c:128-133 | % and two digits of either case are one byte, in either mode |
| `UrlCodec.UnquoteSlash` | src/freedos_micro_python/port/urllib_parse_uc386dos.c:128-133 | %2f and %2F are both a slash |
| `UrlCodec.UnquoteOther` | src/freedos_micro_python/port/urllib_parse_uc386dos.c:126-139 | any other byte passes, but + is a space in plus mode |
| `UrlCodec.SegmentLaw` | src/freedos_micro_python/port/urllib_parse_uc386dos.c:319-334 | a segment is cut at its first =, and dropped exactly when its key, or unless kept its value, is empty |
| `UrlCodec.PairLaw` | src/freedos_micro_python/port/urllib_parse_uc386dos.c:236-256 | a pair is written as its quoted parts with = between them |
| `UrlSplit.Split` | src/freedos_micro_python/port/urllib_parse_uc386dos.c:158-231 | for every URL the five pieces and the separators found rebuild it exactly, and each piece is free of the separators that end it |
| `UrlSplit.SplitRebuilt` | src/freedos_micro_python/port/urllib_parse_uc386dos.c:158-231 | the rebuild of any tuple with scheme, authority and empty or /-led path splits into that tuple and nothing else |
| `UrlSplit.RebuildInjective` | src/freedos_micro_python/port/urllib_parse_uc386dos.c:158-231 | two well-formed splits of one URL are the same split |
| `UrlSplit.SplitUnique` | src/freedos_micro_python/port/urllib_parse_uc386dos.c:158-231 | the five pieces are determined by the URL: no other well-formed pieces rebuild it |
| `UrlSplit.AbsoluteWellFormed` | src/freedos_micro_python/port/urllib_parse_uc386dos.c:158-231 | the rebuild of such a tuple is split where it was joined |
| `UrlSplit.ScanScheme` | src/freedos_micro_python/port/urllib_parse_uc386dos.c:162-180 | a scheme is found exactly when there is one |
| `UrlSplit.ScanNetloc` | src/freedos_micro_python/port/urllib_parse_uc386dos.c:182-193 | the authority holds none of / ? # and ends at one of them |
| `UrlSplit.ScanQuery` | src/freedos_micro_python/port/urllib_parse_uc386dos.c:201-217 | query and fragment rebuild the rest, the query without # |
| `UrlSplit.SchemeAlphabet` | src/freedos_micro_python/port/urllib_parse_uc386dos.c:164-175 | letters and scheme bytes, written out |
| `UrlSplit.SchemeExactly` | src/freedos_micro_python/port/urllib_parse_uc386dos.c:162-185 | what counts as a scheme and as the start of an authority |
| `UrlSplit.RebuildLaw` | src/freedos_micro_python/port/urllib_parse_uc386dos.c:219-225 | the pieces joined with : // ? # in this order |
| `Base64.DecodeEncode` | src/freedos_micro_python/port/base64_uc386dos.c:34-103 | decoding gives the bytes back, with whitespace inserted anywhere in the encoded text |
| `Base64.EncodeLength` | src/freedos_micro_python/port/base64_uc386dos.c:41 | the encoded length is 4 * ceil(n/3) |
| `Base64.SymbolTable` | src/freedos_micro_python/port/base64_uc386dos.c:22-23 | the 64 symbols in order, written out |
| `Base64.SymbolExactly` | src/freedos_micro_python/port/base64_uc386dos.c:25-32 | a byte is read as a symbol only if it is the symbol of its value |
| `Base64.SextetsValue` | src/freedos_micro_python/port/base64_uc386dos.c:46-66 | three bytes and their four groups are the same number, and a rest has zeros below it |
| `Base64.Vectors` | src/freedos_micro_python/port/base64_uc386dos.c:34-70 | section 10 of RFC 4648: f, fo and foo |
| `Base64.SpaceExactly` | src/freedos_micro_python/port/base64_uc386dos.c:85 | the four whitespace bytes |
| `Base64.B64Encode` | src/freedos_micro_python/port/base64_uc386dos.c:34-70 | shifting through 24-bit groups yields the symbols of the six-bit groups and the padding |
| `Base64.B64Decode` | src/freedos_micro_python/port/base64_uc386dos.c:73-103 | the unmasked 32-bit accumulator yields the packed six-bit groups, or an error exactly for a foreign byte before padding |
| `Base64.PackSextets` | src/freedos_micro_python/port/base64_uc386dos.c:95-100 | packing six-bit groups inverts cutting into them |
| `Base64.EncodeUnspaced` | src/freedos_micro_python/port/base64_uc386dos.c:34-70 | encoded text holds no whitespace of its own |
| `Base64.TrackStep` | src/freedos_micro_python/port/base64_uc386dos.c:95-100 | wrapping at 32 bits never reaches the bits still to be emitted |
| `Base64.B16Encode` | src/freedos_micro_python/port/base64_uc386dos.c:106-120 | two upper-case digits per byte |
| `Base64.B16Decode` | src/freedos_micro_python/port/base64_uc386dos.c:130-149 | digits of either case; an error exactly for odd length or another byte |
| `Base64.Decode16Encode16` | src/freedos_micro_python/port/base64_uc386dos.c:106-149 | base16 decoding inverts encoding |
| `Base64.Decode16Pair` | src/freedos_micro_python/port/base64_uc386dos.c:140-147 | a pair of digits of either case is one byte, a pair with another byte an error |
| `Base64.Decode16Cases` | src/freedos_micro_python/port/base64_uc386dos.c:123-128 | ff and FF are both 255 |
| `Base64.Encode16At` | src/freedos_micro_python/port/base64_uc386dos.c:115-118 | each byte is written as its two upper-case digits |
| `Base64.Encode16Even` | src/freedos_micro_python/port/base64_uc386dos.c:113 | the base16 length is twice the input |
| `Qstr.UnescapeEscape` | src/freedos_micro_python/gen_qstrdefs.py:66-133 | unescape inverts the documented escape on every readable string whose literal underscores open no known name |
| `Qstr.UnescapeExactly` | src/freedos_micro_python/gen_qstrdefs.py:66-133 | for every readable string, the escape is read back if and only if no literal underscore opens a known name |
| `Qstr.UnescapeWithoutUnderscores` | src/freedos_micro_python/gen_qstrdefs.py:66-133 | in particular on every underscore-free string |
| `Qstr.NoisyFails` | src/freedos_micro_python/gen_qstrdefs.py:75-85 | a string with an underscore that opens a later-closed known name is never read back, even where that underscore is read as itself |
| `Qstr.ShiftedFails` | src/freedos_micro_python/gen_qstrdefs.py:86-133 | once a misreading leaves characters over, no later reading makes up for them |
| `Qstr.ShiftedUnderscoreFails` | src/freedos_micro_python/gen_qstrdefs.py:95-132 | nor when an underscore of an escape is taken for the start of another name |
| `Qstr.LiteralMisread` | src/freedos_micro_python/gen_qstrdefs.py:75-85 | the literal "_lt_" is its own escape and is read as "<", against the documented claim |
| `Qstr.CharExactly` | src/freedos_micro_python/gen_qstrdefs.py:53-63 | a single character comes back if and only if the table filter keeps its name |
| `Qstr.CloseName` | src/freedos_micro_python/gen_qstrdefs.py:95-128 | the scan over inner underscores stops at the end of the escaped name and reads its character |
| `Qstr.UnescapeTail` | src/freedos_micro_python/gen_qstrdefs.py:86-133 | the index loops compute the recursive reading and end on every string |
| `Qstr.Match` | src/freedos_micro_python/gen_qstrdefs.py:108-129 | the first later underscore that closes a known name, or none |
| `Qstr.ComputeHash` | src/freedos_micro_python/gen_qstrdefs.py:136-152 | masking once at the end equals keeping the hash truncated at every step, 0 replaced by 1, always in 1..mask |
| `Qstr.Djb2Truncates` | src/freedos_micro_python/gen_qstrdefs.py:148-152 | multiply and exclusive or commute with truncation, at every width |
| `Qstr.Djb2Law` | src/freedos_micro_python/gen_qstrdefs.py:148-150 | the hash starts at 5381, and each byte multiplies by 33 and is combined by exclusive or |
| `Qstr.HashWidths` | src/freedos_micro_python/gen_qstrdefs.py:151 | eight bits a byte, and sixteen when none are asked for |
| `Qstr.Alphabets` | src/freedos_micro_python/gen_qstrdefs.py:53 | the identifier characters, written out |
| `Qstr.HexAlphabet` | src/freedos_micro_python/gen_qstrdefs.py:123 | the lower-case digits of a 0xNN form |
| `DosFile.FileRead` | src/freedos_micro_python/port/file_uc386dos.c:111-135 | exactly min(size, remaining) bytes from the position, in order, or an error exactly when closed or a DOS call fails; position and buffer match also after an error |
| `DosFile.ReadLoop` | src/freedos_micro_python/port/file_uc386dos.c:118-134 | pieces of any length from 1 to 1024 add up to that, up to the failed call if there is one |
| `DosFile.FileWrite` | src/freedos_micro_python/port/file_uc386dos.c:137-158 | stores exactly the prefix whose length it returns, and a prefix even on failure; short only when a call wrote nothing or the file is as large as can be, so all is stored when every call moves something |
| `DosFile.WriteLoop` | src/freedos_micro_python/port/file_uc386dos.c:144-157 | short writes add up to one write of the prefix; it stops early only at a call that wrote nothing |
| `DosFile.OverwriteTwice` | src/freedos_micro_python/port/file_uc386dos.c:144-157 | two adjacent writes equal one, gaps past the end included |
| `DosFile.Overwrite` | src/freedos_micro_python/port/file_uc386dos.c:144-157 | a write replaces exactly the bytes it covers; all others stay |
| `DosFile.ReadBack` | src/freedos_micro_python/port/file_uc386dos.c:111-158 | reading where it was written gives what was written |
| `DosFile.LoadSource` | src/freedos_micro_python/port/file_uc386dos.c:57-83 | loads exactly when the first two seeks work and the size is below 2 GB; a prefix of the file with a NUL behind it, all of it if no call fails, and nothing if the seek back fails |
| `DosFile.DosRead` | src/freedos_micro_python/port/dosint21_uc386dos.c:665-700 | at most 1024 bytes through the upper half of the bounce buffer; the path half is untouched |
| `DosFile.DosWrite` | src/freedos_micro_python/port/dosint21_uc386dos.c:702-734 | the written prefix comes from the caller's data; the path half is untouched |
| `DosFile.DosSeek` | src/freedos_micro_python/port/dosint21_uc386dos.c:756-777 | from start, position or end, the 32-bit offset split in 16-bit halves is exact for negative offsets too |
| `DosFile.DosSize` | src/freedos_micro_python/port/dosint21_uc386dos.c:781-789 | for every plan: the answer, the position and the number of seeks that SizeOutcome gives for the three seeks |
| `DosFile.SizeExactly` | src/freedos_micro_python/port/dosint21_uc386dos.c:779-789 | gives the size if and only if the first two seeks work and position and size are below 2 GB; loses the position if and only if the seek to the end works, the way back is barred by a size of 2 GB or a failed seek, and the position was not at the end |
| `DosFile.SizeTooLarge` | src/freedos_micro_python/port/dosint21_uc386dos.c:779-789 | at the start of a 2 GB file: -1, and the position is left at the end |
| `DosFile.SizeNotRestored` | src/freedos_micro_python/port/dosint21_uc386dos.c:787-788 | a failed seek back: the size is given and the position stays at the end |
| `DosFile.StagePath` | src/freedos_micro_python/port/dosint21_uc386dos.c:571-578 | paths below 1024 bytes are staged with their NUL in the lower half; the data half is untouched |
| `DosFile.BounceHalves` | src/freedos_micro_python/port/dosint21_uc386dos.c:660-663 | path and data have halves of 1024 bytes of the 2048-byte buffer |

## Left out

- Ne2000.Driver.InitDirect: what the reset does to a running NIC and the masking of the interrupt line at the PIC are not modelled.
- Ne2000.Driver.PollRx: arrivals fall between remote DMA transfers, not inside one, and receive overflow is the NIC dropping the frame.
- PktReceiver.Receiver.Recv: without the thunk segment; the path through the real-mode stub is `StubReceiver`.
- StubReceiver.Receiver.Arrive: arrivals are atomic to the program and no send or DOS call uses the bounce buffer between an arrival and its drain; the bounce segment is allocated.
- DosFile.DosRead: the branch for an unallocated bounce buffer, which returns -1 at once, is not modelled; the same holds for the other DosFile members.
- DosFile.StagePath: the path is a byte string; the NUL search of strlen and the open call itself are not modelled.
- ByteNumber.Number.FromBin: null object and null output pointers are not modelled; the same holds for the other ByteNumber members.
- UrlCodec.UrlEncode: pairs are byte strings; conversion of other values with str(), pairs of a wrong size and the UTF-8 check on results are not modelled.
- AesCtr.CipherInit: the CBC branch of the crypt call and the key schedule are the library's.
- NE2000 sending, DPMI calls, interrupt dispatch, thunk allocation and address resolution: foreign calls whose behaviour is not in the repository.
- `c_string` of the qstr generator, the libc branches of the DOS layer, its create, close and directory calls, and the debug markers: easier than what is modelled.
- `time` and `gettimeofday`: a counter and a store.
- RSA, DH, key files, X25519, Ed25519, libssh2, lwIP, axtls and the ssh and tls modules over them: wrappers around libraries that are not part of this model.
- `math_gamma`: floating-point approximation.
- `os`, `shutil`, `tempfile`, paths, the example tools, packaging, the command line and the Python rigs: input and output, or easier string handling.
