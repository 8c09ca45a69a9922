# Models of Crypto++ algorithms in Dafny

The coin in this repository ships Crypto++ under `external/cryptopp`. This project models the algorithms there that do
real work in their own right and proves what they are for. It is written in the form of the source: objects that update
their fields are classes, in-place work on memory is done on arrays, loops stay loops, and each is proved against a
function of values about which the main results are then stated.

| files | what they model |
|---|---|
| `Groups`, `WindowSlider`, `SimultaneousMultiply`, `Cascade`, `GeneralCascade` | generic scalar multiplication: signed windows with buckets, the two-base table, the heap of bases |
| `NumberTheory`, `Euclid` | greatest common divisors, inverses in a quotient ring, Fermat's theorem and exponents modulo (p−1)(q−1) |
| `BlumBlumShub`, `SeekedStreams` | the generator and its random access |
| `AuthEncProtocol`, `AuthEncRuns`, `CcmSpec`, `Ccm`, `CcmRuns` | the call protocol of authenticated encryption, the formatting of RFC 3610, the streaming CCM object and whole runs of it |
| `BerLength`, `BerReencode`, `Oid` | BER and DER lengths, the re-encoder, object identifiers and unsigned numbers |
| `BatchedBlocks`, `BatchOverlap`, `BatchStaying`, `BatchOwnXor` | batches of six, two and one blocks over overlapping memory, which overlaps they bear, and pointers that stay |
| `BitStrings`, `Packing`, `BaseCodeSpec`, `BaseCodeBits`, `BaseEncoder`, `BaseDecoder`, `GroupedCode` | power-of-two base encodings, their decoding tables and grouping |
| `Blake2`, `Adler32`, `Arc4` | BLAKE2b and BLAKE2s around an open compression function, Adler-32, ARC4 |
| `Arithmetic`, `Bytes` | shifts, bits, division, bytes and exclusive or |

`dafny verify dfyconfig.toml` checks everything.

How things are represented: group elements are an arbitrary type with operations that obey the laws assumed of them; a
block cipher and the BLAKE2 compression are arbitrary functions; `Integer` is an unbounded number; bytes are numbers
below 256, and a C++ width is written out wherever a value can reach it (64-bit lengths, 32-bit arcs and sums, counter
words, byte shifts). Exceptions are results. Filters write to a sequence; the resumption of a blocked output is not
modelled. Where a source repeats a statement six or eight times the model has a loop of that many turns.

Some properties one would expect do not hold of the code as it stands. Each has an input that shows it, and the exact
condition under which it does hold:

- inverting an operand whose absolute value is not below the modulus (`Euclid.InverseCondition`,
  `Euclid.UnreducedOperandFails`);
- seeking in the generator when the seed shares a factor with the modulus, or when the factors are equal
  (`BlumBlumShubGenerator.SeekLands` for the state, `SeekedStreams.BitsLand` for the bits; `SeekedStreams.SeekCanMiss`
  and `SeekedStreams.EqualFactorsFail`); the header asks for primes that are 3 modulo 4, for which every seek lands as
  long as they differ;
- identifiers whose first two arcs do not fit one octet (`Oid.OidRoundTrip`, `Oid.SharedByteFails`);
- finalising once each when a final throws after a hook has run and the caller goes on
  (`AuthEncProtocol.RunsFinaliseExactly`, `AuthEncProtocol.NoWasteExactly`; `AuthEncProtocol.ThrowingHookRepeatsHeader`
  and `AuthEncProtocol.RefusedTagSizeRepeatsBoth`);
- batches against one block at a time when the output is ahead of what is read by less than a batch
  (`BatchOverlap.OverlapExactly`, `BatchOverlap.OverlapFails`), and when input and output stay on one block, or the last
  xor block is the output block (`BatchStaying.RepeatedExactly`, `BatchOwnXor.OwnXorExactly`,
  `BatchStaying.StayingExactly`, `BatchStaying.RepeatedFails`); CBC-MAC, which chains that way, does not ask for batches;
- the loop of the base class, going backwards without xor blocks over more than one block, which tests the xor pointer
  after moving it (`BatchOverlap.MissingXorExactly`, `BatchOverlap.MissingXorFails`); the model of one block at a time
  is that of a loop that tests it before;
- encrypting with ARC4 into a place ahead inside the input (`Arc4Cipher.EncryptsExactly`,
  `Arc4Cipher.AheadShows`).

## Model

| member | source | states |
|---|---|---|
| `Groups.TimesAdd` | external/cryptopp/algebra.h:45-73 | multiples add: (a + b)·x = a·x + b·x for all integers a, b when inverses exist, from the group laws alone |
| `Groups.TimesNegate` | external/cryptopp/algebra.h:50-57 | the inverse of a·x is (−a)·x in a group whose inversion is declared fast |
| `WindowSliders.RecodeIsExact` | external/cryptopp/algebra.cpp:206-253 | over a whole run the signed digits times their place values sum to the exponent, for every exponent, window size and both settings of fast negation; the recursion, and so the run, ends although a carry can grow the exponent |
| `WindowSliders.WindowIsExact` | external/cryptopp/algebra.cpp:235-246 | one window splits the exponent exactly: digit·2^pos plus the carried remainder·2^(pos+w) is what was left |
| `WindowSliders.RecodeIsWellSpaced` | external/cryptopp/algebra.cpp:220-247 | every digit of a run is odd, below 2^w in size, negative only when negation is fast, and starts at least w positions after the one before |
| `WindowSliders.RecodeSkipsZeros` | external/cryptopp/algebra.cpp:225-233 | skipping zero bits does not change the windows that follow |
| `WindowSliders.WindowSlider.constructor` | external/cryptopp/algebra.cpp:208-218 | the new slider has the whole recoding of the exponent ahead of it; the automatic window size is at most 7 |
| `WindowSliders.WindowSlider.FindNextWindow` | external/cryptopp/algebra.cpp:220-247 | the current window followed by what remains is what remained before the call; at the end of the recoding `finished` is set |
| `WindowSliders.TakeWindow` | external/cryptopp/algebra.cpp:235-246 | digit, sign and carried exponent of one window are the head and tail of the recoding, and the digit indexes a bucket |
| `WindowSliders.NextOne` | external/cryptopp/algebra.cpp:222-233 | finds the first one bit at or after a position, or reports that there is none; the word-length bound of the search never misses one |
| `SimultaneousMultiplication.WeightedUpdate` | external/cryptopp/algebra.cpp:282-286 | adding to bucket k changes the weighted sum Σ(2k+1)·bucket_k by 2k+1 times the addition |
| `SimultaneousMultiplication.SuffixSumsCollapse` | external/cryptopp/algebra.cpp:299-313 | twice the sum of the suffix sums from 1 on, plus the suffix sum from 0, is Σ(2k+1)·c_k |
| `SimultaneousMultiplication.CollapseBuckets` | external/cryptopp/algebra.cpp:299-313 | the in-place suffix sums of the buckets give Σ(2k+1)·c_k times the base, for any number of buckets |
| `SimultaneousMultiplication.Prepare` | external/cryptopp/algebra.cpp:263-269 | a fresh slider and empty buckets: deposits so far plus the slider's pending windows make the exponent |
| `SimultaneousMultiplication.Deposit` | external/cryptopp/algebra.cpp:280-287 | adding ±2^pos·base to the bucket of an odd digit d adds ±d·2^pos to the weighted sum |
| `SimultaneousMultiplication.Visit` | external/cryptopp/algebra.cpp:280-288 | one exponent at one bit position: deposits plus pending windows still make the exponent, and no window before the next position is left |
| `SimultaneousMultiplication.PrepareAll` | external/cryptopp/algebra.cpp:263-269 | the same for all exponents |
| `SimultaneousMultiplication.VisitAll` | external/cryptopp/algebra.cpp:277-290 | the same for all exponents at one position; the loop goes on only below a bound that is known in advance, and stops only when every slider has finished |
| `SimultaneousMultiplication.SimultaneousMultiply` | external/cryptopp/algebra.cpp:255-314 | for every base and every list of non-negative exponents the call ends and result i is exponent_i·base |
| `SimultaneousMultiplication.ScalarMultiply` | external/cryptopp/algebra.cpp:90-95 | the result is exponent·base |
| `Cascade.LinAdd` | external/cryptopp/algebra.cpp:97-170 | (a·x + b·y) + (c·x + d·y) = (a+c)·x + (b+d)·y in a commutative monoid |
| `Cascade.FillOddColumns` | external/cryptopp/algebra.cpp:118-122 | every slot with odd first coordinate holds p1·x + p2·y |
| `Cascade.FillOddRows` | external/cryptopp/algebra.cpp:124-128 | every slot with even first and odd second coordinate holds p1·x + p2·y |
| `Cascade.BuildTable` | external/cryptopp/algebra.cpp:103-129 | for w = 1, 2, 3 every slot with at least one odd coordinate holds p1·x + p2·y, whatever the default-constructed slots hold |
| `Cascade.Halve` | external/cryptopp/algebra.cpp:142-151 | halving until one power is odd keeps both powers times 2^squaresAfter, and `squaresBefore` never falls below zero |
| `Cascade.DoubleTimes` | external/cryptopp/algebra.cpp:159-165 | k doublings multiply both coefficients by 2^k |
| `Cascade.Combine` | external/cryptopp/algebra.cpp:142-166 | folding in one window leaves (e1 >> n)·x + (e2 >> n)·y, reading only slots that were filled |
| `Cascade.MainLoop` | external/cryptopp/algebra.cpp:131-169 | the loop over all bits leaves e1·x + e2·y |
| `Cascade.CascadeScalarMultiply` | external/cryptopp/algebra.cpp:97-170 | the result is e1·x + e2·y for all non-negative e1, e2 in every commutative monoid |
| `GeneralCascade.TotalPermutes` | external/cryptopp/algebra.cpp:184-199 | a sum in a commutative monoid does not depend on the order of its terms |
| `GeneralCascade.PushHeap` | external/cryptopp/algebra.cpp:198-198 | the last element joins the heap and the elements are permuted |
| `GeneralCascade.PopHeap` | external/cryptopp/algebra.cpp:199-199 | the top moves to the end, the rest is a heap, and the elements are permuted |
| `GeneralCascade.MakeHeap` | external/cryptopp/algebra.cpp:184-184 | the array becomes a heap of the same elements |
| `GeneralCascade.PopLargest` | external/cryptopp/algebra.cpp:185-189 | after a pop the last exponent is the largest of all |
| `GeneralCascade.DivideKeepsSum` | external/cryptopp/algebra.cpp:190-196 | e·(b + q·b') + r·b' = e·b + e'·b' for q, r the quotient and remainder of e' by e |
| `GeneralCascade.DividedKeepsSum` | external/cryptopp/algebra.cpp:190-196 | one divide-and-accumulate step keeps Σ exponent_i·base_i over the whole array |
| `GeneralCascade.DividedIsSmaller` | external/cryptopp/algebra.cpp:190-196 | the step makes the sum of the exponents strictly smaller |
| `GeneralCascade.DivideStep` | external/cryptopp/algebra.cpp:187-196 | in place, with or without the q = 1 shortcut, the array becomes the divided one |
| `GeneralCascade.GeneralCascadeMultiplication` | external/cryptopp/algebra.cpp:172-204 | for one, two or more pairs the call ends and returns Σ exponent_i·base_i of the pairs it was given |
| `Euclid.Gcd` | external/cryptopp/algebra.cpp:56-68 | for all integers the result divides both operands and every common divisor divides it; it is negative exactly where an operand is the answer as it stands (with integer.cpp:4191-4207) |
| `Euclid.StepRepresents` | external/cryptopp/algebra.cpp:79-84 | the loop keeps g ≡ v·a (mod m) for both rotating pairs |
| `Euclid.MultiplicativeInverse` | external/cryptopp/algebra.cpp:70-88 | for every integer a: for |a| < m the result v has a·v ≡ 1 (mod m) when a and m are coprime and is 0 otherwise; for |a| ≥ m it is 0, since the loop test is modulo m (with algebra.h:401-402, integer.cpp:4191-4207, integer.cpp:4396-4399) |
| `Euclid.InverseCondition` | external/cryptopp/algebra.cpp:70-88 | over all integers the result inverts every coprime operand exactly when |a| < m or m = 1: any other coprime operand is never inverted (with algebra.h:401-402) |
| `Euclid.UnreducedOperandFails` | external/cryptopp/algebra.cpp:77-87 | 4 and −4 modulo 3 have the inverses 1 and 2, which is not what is returned |
| `NumberTheory.Fermat` | external/cryptopp/blumshub.cpp:59-60 | a^p ≡ a (mod p) for every prime p, by the binomial theorem |
| `NumberTheory.PowReduces` | external/cryptopp/blumshub.cpp:59-60 | exponents may be reduced modulo (p−1)(q−1) for distinct primes p, q when the base is coprime to pq or the reduced exponent is not 0 |
| `NumberTheory.PowReducesBadly` | external/cryptopp/blumshub.cpp:59-60 | when the reduced exponent is 0 and the base shares a factor with pq, the power is lost |
| `NumberTheory.PowNearOne` | external/cryptopp/blumshub.cpp:59-60 | (1+u)^m ≡ 1 + m·u (mod u²) |
| `NumberTheory.PowReducesSquare` | external/cryptopp/blumshub.cpp:59-60 | modulo p² an exponent e of a base that p does not divide may be reduced modulo (p−1)² if and only if p divides the quotient or the power by p−1 is 1 |
| `BlumBlumShubGenerator.RunPosition` | external/cryptopp/blumshub.cpp:17-26 | after k bits from the constructed state the generator is at bit k of the squaring sequence, up to a refill still due |
| `BlumBlumShubGenerator.SequentialBit` | external/cryptopp/blumshub.cpp:9-26 | bit k from the start is bit m − 1 − k mod m of x0^(2^(⌊k/m⌋+1)) mod n, for m bits to a block |
| `BlumBlumShubGenerator.MaxBitsIs` | external/cryptopp/blumshub.cpp:9-15 | m is one less than the bit length of the bit length of the modulus |
| `BlumBlumShubGenerator.BitsValueAt` | external/cryptopp/blumshub.cpp:28-34 | the first bit of a byte is its most significant one |
| `BlumBlumShubGenerator.RefillIsSilent` | external/cryptopp/blumshub.cpp:19-25 | states that differ only in a refill still due give the same bits for ever |
| `BlumBlumShubGenerator.SeekLands` | external/cryptopp/blumshub.cpp:48-62 | `Seek` lands on the state of bit k if and only if, with e = 2^(j+1) and j the block of bit k: for distinct primes the seed is coprime to pq or (p−1)(q−1) does not divide e; for p = q, where p divides the seed (p−1)² does not divide e, and otherwise p divides e/(p−1)² or (seed²)^(p−1) is 1 modulo p² |
| `BlumBlumShubGenerator.SequentialStream` | external/cryptopp/blumshub.cpp:17-26 | the sequential stream from bit k on is the stream of the state at bit k |
| `BlumBlumShubGenerator.SeekedStream` | external/cryptopp/blumshub.cpp:55-62 | whenever it lands, the bits after `Seek(i)` are those from bit 8i on of the sequential stream |
| `BlumBlumShubGenerator.SeekedBytes` | external/cryptopp/blumshub.cpp:36-62 | the same in bytes: a suffix of one long sequential output |
| `BlumBlumShubGenerator.BlumPrimesAreSafe` | external/cryptopp/blumshub.cpp:48-62 | for distinct primes that are 3 modulo 4 every seek lands, for every seed |
| `BlumBlumShubGenerator.PublicBlumBlumShub.constructor` | external/cryptopp/blumshub.cpp:9-15 | the seed is squared twice: the state is bit 0 of the sequence that starts at seed² |
| `BlumBlumShubGenerator.PublicBlumBlumShub.GenerateBit` | external/cryptopp/blumshub.cpp:17-26 | one bit and one step of the state, with a refill when no bits are left |
| `BlumBlumShubGenerator.PublicBlumBlumShub.GenerateByte` | external/cryptopp/blumshub.cpp:28-34 | eight bits of the stream, most significant first: bit e of the byte is bit 7 − e of the stream |
| `BlumBlumShubGenerator.PublicBlumBlumShub.GenerateBlock` | external/cryptopp/blumshub.cpp:36-40 | `size` bytes of the stream: bit e of byte i is bit 8i + 7 − e of the stream |
| `BlumBlumShubGenerator.BlumBlumShub.constructor` | external/cryptopp/blumshub.cpp:48-53 | for any two factors, equal or not: the generator for p·q in its first state, with x0 the square of the seed |
| `BlumBlumShubGenerator.BlumBlumShub.Seek` | external/cryptopp/blumshub.cpp:55-62 | the state is the one computed with the reduced exponent, and for primes, equal or not, it is bit 8·index of the sequence exactly under the condition of `SeekLands` |
| `BlumBlumShubGenerator.SeekThenGenerate` | external/cryptopp/blumshub.cpp:36-62 | on objects, whenever that condition holds: bytes after a seek are the suffix of bytes generated from the start, and bit e of byte k of those is the bit of (seed²)^(2^(j+1)) mod n that place 8k + 7 − e of the stream has |
| `SeekedStreams.BitsLand` | external/cryptopp/blumshub.cpp:55-62 | for distinct primes, or equal ones that divide the seed, all bits after a seek are right if and only if it lands or the right value at that bit ends in the bits of 1, in as many places as are delivered: a miss sets 1, and the right value is its own square from there on |
| `SeekedStreams.UnsafeSeek` | external/cryptopp/blumshub.cpp:55-62 | a seek that misses, for distinct primes, sets 1, and squaring leaves the right value as it is |
| `SeekedStreams.FixedStreams` | external/cryptopp/blumshub.cpp:17-26 | two values that are their own squares deliver the same stream exactly when they agree in the places delivered |
| `SeekedStreams.EqualFactorsFail` | external/cryptopp/blumshub.cpp:55-62 | with p = q = 3 and seed 2 a seek by one byte misses, in state and in the first bit, although the seed shares no factor |
| `SeekedStreams.SeekCanMiss` | external/cryptopp/blumshub.cpp:55-62 | with p = 3, q = 5 and seed 3 a seek by one byte misses, in state and in the first bit |
| `SeekedStreams.MissedButRight` | external/cryptopp/blumshub.cpp:55-62 | with p = 2, q = 3 and seed 3 every seek misses the state, and every bit after it is right |
| `AuthEncProtocol.StepKeepsConsistent` | external/cryptopp/authenc.cpp:67-181 | for every mode, every call that returns keeps: the log of finalisations fits the state, the buffered length is below the block size, the message total is at most the maximum; `TruncatedFinal` leaves the log complete |
| `AuthEncProtocol.BufferedLength` | external/cryptopp/authenc.cpp:11-51 | the branches of the buffering code leave less than a block: the remainder of all bytes so far |
| `AuthEncProtocol.RunsFinaliseOnceInOrder` | external/cryptopp/authenc.cpp:67-181 | every run in which no call throws keeps this, and one that ends in `TruncatedFinal` finalised header, confidential data and footer once each in that order |
| `AuthEncProtocol.StepKeepsConsistentBut` | external/cryptopp/authenc.cpp:67-181 | every call, returning or throwing, keeps the same with what throwing finals have finalised in between: from the state before the message, header or header and confidential data, each time; after that, confidential data; `Resynchronize` starts afresh, and a returning final adds the rest in order |
| `AuthEncProtocol.RunsFinaliseExactly` | external/cryptopp/authenc.cpp:67-181 | in every run of every mode, whatever throws in whichever hook, buffer and message total stay bounded, and a returning `TruncatedFinal` leaves exactly the three finalisations interleaved with those that earlier finals completed before they threw: once each in order if and only if there are none of these (with eax.cpp:49-57, chachapoly.cpp:83-91) |
| `AuthEncProtocol.NoWasteExactly` | external/cryptopp/authenc.cpp:141-181 | there are none if and only if no final since the last `Resynchronize` completed a hook before it threw |
| `AuthEncProtocol.ThrowingHookRepeatsHeader` | external/cryptopp/authenc.cpp:154-181 | a completed run that finalises the header twice: a final that is too early, then a message byte, then a final |
| `AuthEncProtocol.RefusedTagSizeRepeatsBoth` | external/cryptopp/cmac.cpp:118-120 | a completed run that finalises header and confidential data twice: a final with a tag size above the digest size, which the footer hook of EAX and ChaCha20-Poly1305 refuses, then one with the digest size (with eax.cpp:49-57, chachapoly.cpp:83-91) |
| `AuthEncRuns.OrderlyRuns` | external/cryptopp/authenc.cpp:80-139 | for hooks that do not throw: header, message and footer in any pieces go through exactly if the message is not too long, with the totals the sums of the pieces and the finalisations those of the state reached |
| `AuthEncRuns.FinalOfOrderlyRun` | external/cryptopp/authenc.cpp:141-181 | the final after such a run returns exactly if header and footer are not too long and the tag size is not refused |
| `AuthEncRuns.AcceptedRunsAreOrderly` | external/cryptopp/authenc.cpp:80-139 | conversely every run of nonempty updates and of data that goes through is header, then message, then footer |
| `AuthEncRuns.OutOfOrder` | external/cryptopp/authenc.cpp:67-181 | what throws before a key, before an initialization vector and after the footer, and what starts afresh |
| `CcmSpec.CbcMacResumes` | external/cryptopp/authenc.cpp:11-51 | chaining a text in two parts with a partial block carried over is chaining the whole |
| `CcmSpec.CbcMacPads` | external/cryptopp/ccm.cpp:99-129 | xoring the buffered bytes and encrypting is chaining the zero-padded text |
| `CcmSpec.FormattedChain` | external/cryptopp/ccm.cpp:50-129 | the CBC-MAC of the formatted blocks of section 2.2 of RFC 3610 is the chain over first block, padded header and padded message |
| `CcmSpec.FirstBlockInjective` | external/cryptopp/ccm.cpp:58-64 | the first block determines nonce, tag size, message length and whether there is a header |
| `CcmSpec.HeaderPrefixInjective` | external/cryptopp/ccm.cpp:66-89 | the three header-length encodings are prefix-free: prefix and rest are determined |
| `CcmSpec.FormattedInjective` | external/cryptopp/ccm.cpp:27-90 | equal block sequences come from equal nonce, tag size, header and message, for all lengths within bounds (with ccm.h:53-54) |
| `CcmSpec.FirstBlockIsNoCounter` | external/cryptopp/ccm.cpp:36-64 | no first block equals any counter block of any nonce |
| `CcmSpec.CounterIsAddition` | external/cryptopp/modes.cpp:123-133 | adding k to the initial counter block as a 16-byte number gives counter block k as long as the length field does not overflow |
| `CcmSpec.TagUnmasked` | external/cryptopp/ccm.cpp:131-135 | a tag xored with the encryption of counter block 0 is the CBC-MAC of the formatted blocks |
| `CcmSpec.CiphertextAt` | external/cryptopp/ccm.cpp:36-46 | byte i of the message is xored with byte i mod 16 of the encryption of counter block 1 + ⌊i/16⌋ (with authenc.cpp:127-133) |
| `CcmSpec.CounterBlockFields` | external/cryptopp/ccm.cpp:31-38 | flags, nonce and number of a counter block |
| `CcmSpec.FirstBlockFields` | external/cryptopp/ccm.cpp:61-63 | flags, nonce and message length of the first block, bit by bit |
| `CcmSpec.HeaderPrefixFields` | external/cryptopp/ccm.cpp:66-89 | the three forms of the header length and their bounds |
| `CcmSpec.FormattedLayout` | external/cryptopp/ccm.cpp:50-129 | the text that is authenticated: first block, header length, header, zeros to the end of a block, message, zeros to the end of a block |
| `Bytes.XorIsBitwise` | external/cryptopp/misc.cpp:32-63 | a bit of an exclusive or is set where exactly one of the two is |
| `CcmSpec.DecryptionInverts` | external/cryptopp/ccm.cpp:27-48 | applying the key stream twice gives the message back |
| `CcmStream.FirstBlockInPlace` | external/cryptopp/ccm.cpp:58-63 | writing flag, 64-bit length and nonce over each other in that order gives the first block for every length-field size |
| `CcmStream.Ccm.constructor` | external/cryptopp/ccm.cpp:11-25 | a keyed object with no nonce |
| `CcmStream.Ccm.Resync` | external/cryptopp/ccm.cpp:27-48 | the counter starts at block 1 of the nonce and nothing has been taken in |
| `CcmStream.Ccm.Resynchronize` | external/cryptopp/authenc.cpp:67-78 | takes exactly the protocol's step; on success the object is fresh for the nonce |
| `CcmStream.Ccm.UncheckedSpecifyDataLengths` | external/cryptopp/ccm.cpp:50-90 | the first block has been chained and the encoded header length is in the buffer |
| `CcmStream.Ccm.SpecifyDataLengths` | external/cryptopp/cryptlib.cpp:233-245 | succeeds exactly for a header below 2^64, a message within the length field, no footer and a set nonce; otherwise nothing changes (with ccm.cpp:50-54) |
| `CcmStream.Ccm.AuthenticateBlocks` | external/cryptopp/ccm.cpp:92-97 | the chaining block becomes the CBC-MAC over the whole blocks of the data, and the rest's length is returned |
| `CcmStream.Ccm.AuthenticateData` | external/cryptopp/authenc.cpp:11-51 | chaining value and buffer represent the text so far followed by the input, for every split |
| `CcmStream.Ccm.CompleteBlock` | external/cryptopp/authenc.cpp:21-31 | completing and chaining the buffered block leaves the same chain and the same incomplete block ahead |
| `CcmStream.Ccm.AuthenticateLastHeaderBlock` | external/cryptopp/ccm.cpp:99-113 | succeeds exactly when the header has its declared length, and then has chained the padded header |
| `CcmStream.Ccm.AuthenticateLastConfidentialBlock` | external/cryptopp/ccm.cpp:115-129 | succeeds exactly when the message has its declared length, and then has chained the padded message |
| `CcmStream.Ccm.AuthenticateLastFooterBlock` | external/cryptopp/ccm.cpp:131-135 | the first bytes of the chaining block, encrypted with counter block 0 |
| `CcmStream.Ccm.Update` | external/cryptopp/authenc.cpp:80-107 | takes exactly the protocol's step; header data is appended to the header |
| `CcmStream.Ccm.BeginFooter` | external/cryptopp/authenc.cpp:94-99 | the move to the footer takes exactly the protocol's step |
| `CcmStream.Ccm.Admit` | external/cryptopp/authenc.cpp:109-127 | refuses a message beyond the maximum and closes the header before the first message byte, exactly as the protocol does; the counter cannot run out |
| `CcmStream.Ccm.BeginMessage` | external/cryptopp/authenc.cpp:123-127 | succeeds exactly when the header has its declared length; the direction decides whether input or output is authenticated |
| `CcmStream.Ccm.Transform` | external/cryptopp/authenc.cpp:128-135 | the plaintext side is authenticated and the key stream applied, in place or not |
| `CcmStream.Ccm.FinishAll` | external/cryptopp/authenc.cpp:141-170 | closes what is still open in order, exactly as the protocol does, and leaves the CBC-MAC of the formatted input |
| `CcmStream.Ccm.CtrProcess` | external/cryptopp/ccm.cpp:45-46 | output is input xor the key stream at the position, also when output and input are the same array; nothing beyond is written |
| `CcmStream.Ccm.ProcessData` | external/cryptopp/authenc.cpp:109-139 | takes exactly the protocol's step; output is input xor key stream, and the plaintext is what is authenticated in either direction, in place or not |
| `CcmStream.Ccm.TruncatedFinal` | external/cryptopp/authenc.cpp:141-181 | takes exactly the protocol's step; the tag is that of section 2.3 of RFC 3610 for the nonce, header and message |
| `CcmRuns.FeedHeader` | external/cryptopp/authenc.cpp:80-93 | headers in any chunks |
| `CcmRuns.FeedMessage` | external/cryptopp/authenc.cpp:109-139 | messages in any chunks, in place or not, give the ciphertext of the whole |
| `CcmRuns.Process` | external/cryptopp/authenc.cpp:67-181 | a whole run in any chunks succeeds exactly for valid nonce and lengths; every byte of the output is the byte given xored with its byte of the key stream from counter block 1 on, and the tag xored with the encryption of counter block 0 is the CBC-MAC of the formatted header and message (with ccm.cpp:27-135) |
| `CcmRuns.RoundTrip` | external/cryptopp/authenc.cpp:67-181 | decryption with the same key and nonce, in any other chunks, gives the plaintext and the same tag (with ccm.cpp:27-135) |
| `BerLength.DERLengthEncode` | external/cryptopp/asn.cpp:17-36 | appends the distinguished length octets and returns their number |
| `BerLength.PutBigEndian` | external/cryptopp/asn.cpp:29-33 | the shifted bytes are the big-endian number |
| `BerLength.BERLengthDecode` | external/cryptopp/asn.cpp:38-74 | consumes exactly the length octets; truncation, overflow and the indefinite form are told apart, and what each leaves in the queue is stated |
| `BerLength.DecodeLongExact` | external/cryptopp/asn.cpp:60-71 | the loop accepts a long form if and only if the octets are there and their number is below 2^64 |
| `BerLength.LengthRoundTrip` | external/cryptopp/asn.cpp:17-74 | every 64-bit length decodes to itself from what was written, and what follows is left alone |
| `BerLength.DerLengthIsShortest` | external/cryptopp/asn.cpp:17-36 | no octets that decode to a length are fewer than the ones written for it |
| `BerLength.DerLengthFields` | external/cryptopp/asn.cpp:17-36 | the octets written: the length itself up to 127, otherwise 128 plus their number and the number without leading zeros |
| `BerLength.DecodesExactly` | external/cryptopp/asn.cpp:38-73 | exactly the octets that decode to a length, to which one, and to an indefinite one |
| `BerLength.FailsExactly` | external/cryptopp/asn.cpp:38-73 | exactly which octets are too long and which run out |
| `BerReencode.ReencodeObject` | external/cryptopp/asn.cpp:216-231 | any well-formed object in front of any rest is consumed exactly and comes out with the same tags and contents and minimal definite lengths |
| `BerReencode.AcceptedObject` | external/cryptopp/asn.cpp:216-231 | whatever is accepted was such an object (with asn.cpp:409-475) |
| `BerReencode.AcceptsExactlyObjects` | external/cryptopp/asn.cpp:216-231 | the re-encoder succeeds exactly on inputs that begin with a well-formed object (with asn.cpp:409-475) |
| `BerReencode.ReencodeIdempotent` | external/cryptopp/asn.cpp:216-231 | re-encoding its output changes nothing (with asn.cpp:527-534) |
| `BerReencode.DefiniteExactly` | external/cryptopp/asn.cpp:216-231 | a definite object keeps tag and contents under the shortest length octets (with asn.cpp:527-534) |
| `BerReencode.IndefiniteExactly` | external/cryptopp/asn.cpp:216-231 | an indefinite object of any objects that are accepted becomes a definite one of what they become exactly if bit 5 of its tag is set, and is refused otherwise (with asn.cpp:409-420, asn.cpp:527-534) |
| `BerReencode.EmptyIndefinite` | external/cryptopp/asn.cpp:409-420 | for every tag, tag 80 00 00 becomes tag 00 or is refused (with asn.h:62-62) |
| `BerReencode.DERReencode` | external/cryptopp/asn.cpp:216-231 | on queues: succeeds, consumes and writes what the re-encoder on sequences does, and terminates on every input (with asn.cpp:409-475, asn.cpp:527-534) |
| `BerReencode.ReencodeContents` | external/cryptopp/asn.cpp:224-229 | the same for the objects inside an indefinite one up to the end octets |
| `Oid.SeptetsFromBits` | external/cryptopp/asn.cpp:235-235 | the rounded bit count is the number of seven-bit digits, one at least |
| `Oid.SeptetIsShift` | external/cryptopp/asn.cpp:235-236 | the shifted and masked value is the digit to the base 128 |
| `Oid.EncodeValue` | external/cryptopp/asn.cpp:233-238 | appends the base-128 digits, all but the last marked |
| `Oid.DecodeValue` | external/cryptopp/asn.cpp:240-257 | consumes one such number, or fails on truncation or a number of 2^32 or more with the queue read up to there |
| `Oid.ArcRoundTrip` | external/cryptopp/asn.cpp:233-257 | every 32-bit arc decodes to itself; the overflow guard never trips on what was written |
| `Oid.ArcAt` | external/cryptopp/asn.cpp:233-238 | octet i of an arc holds its seven bits from the top, with bit 8 set in all but the last |
| `Oid.DecodeArcExactly` | external/cryptopp/asn.cpp:240-257 | octets with bit 8 set and one without decode to their seven-bit digits exactly if the former make less than 2^25 |
| `Oid.DEREncode` | external/cryptopp/asn.cpp:259-269 | appends tag, length and contents |
| `Oid.BERDecode` | external/cryptopp/asn.cpp:271-298 | succeeds and fails as the decoder on sequences does, and leaves in the queue what that leaves, on failure too |
| `Oid.DecodeOthers` | external/cryptopp/asn.cpp:289-297 | the arcs after the first two, up to the declared length, or the queue where the failing arc left it |
| `Oid.OidDecodes` | external/cryptopp/asn.cpp:259-298 | every identifier decodes, its first two arcs being the quotient and remainder of the shared octet by 40 |
| `Oid.OidRoundTrip` | external/cryptopp/asn.cpp:259-298 | an identifier decodes to itself if and only if its second arc is below 40 and its first octet below 256 |
| `Oid.SharedByteFails` | external/cryptopp/asn.cpp:259-298 | 1.40 comes back as 2.0, and 6.16 as 0.0 |
| `Oid.KnownIdentifier` | external/cryptopp/asn.cpp:259-269 | 1.2.840.113549 is 06 06 2a 86 48 86 f7 0d |
| `Oid.EncodedInOctets` | external/cryptopp/asn.cpp:259-269 | tag 6, the length, the shared octet, and the arcs from the third on |
| `Oid.DecodedFromOctets` | external/cryptopp/asn.cpp:271-298 | tag 6, a length in any form, an octet and arcs in any form decode to the quotient and remainder of the octet by 40 and the arcs |
| `Oid.MinimalBytes` | external/cryptopp/asn.h:472-479 | the fewest octets whose top bit is clear |
| `Oid.DEREncodeUnsigned` | external/cryptopp/asn.h:460-485 | appends tag, length and those octets, or one octet for a Boolean |
| `Oid.ReadUnsigned` | external/cryptopp/asn.h:525-536 | leading zero octets are dropped and at most four octets are folded |
| `Oid.BERDecodeUnsigned` | external/cryptopp/asn.h:496-540 | succeeds and fails as the decoder on sequences does, and leaves in the queue what that leaves, on failure too |
| `Oid.UnsignedRoundTrip` | external/cryptopp/asn.h:460-540 | every 32-bit number decodes to itself under every tag but BOOLEAN |
| `Oid.BooleanRoundTrip` | external/cryptopp/asn.h:460-540 | a Boolean decodes to 0 or to 255 |
| `Oid.UnsignedContentsFields` | external/cryptopp/asn.h:472-479 | the contents written stand for the number, have a clear sign bit, and none could be left off |
| `Oid.TaggedContentsIs` | external/cryptopp/asn.h:464-479 | under tag 1 there are two values, under any other the number |
| `Oid.DecodedUnsigned` | external/cryptopp/asn.h:496-540 | exactly which contents are read as a number, under which tags and bounds, and as which number |
| `BatchedBlocks.LaneAddIncrements` | external/cryptopp/adv_simd.h:1308-1319 | adding 1<<24 to the top lane is `inBlocks[15]++`, wrap-around included |
| `BatchedBlocks.LoadBlocks` | external/cryptopp/adv_simd.h:1307-1334 | the blocks of a batch, or the counter and its next values, with the counter stored past them |
| `BatchedBlocks.LoadCounters` | external/cryptopp/adv_simd.h:1308-1319 | the same for counters |
| `BatchedBlocks.XorBlocks` | external/cryptopp/adv_simd.h:1336-1368 | each block xored with its xor block |
| `BatchedBlocks.StoreBlocks` | external/cryptopp/adv_simd.h:1370-1381 | the outputs written in order |
| `BatchedBlocks.ProcessBatch` | external/cryptopp/adv_simd.h:1305-1429 | one batch in place, whatever overlaps: the counter stored, then all reads, then all writes |
| `BatchedBlocks.ProcessOne` | external/cryptopp/adv_simd.h:1432-1454 | one block in place, whatever overlaps: the counter is counted up after the input and before an xor block for the output is read |
| `BatchedBlocks.AdvancedProcessBlocks` | external/cryptopp/adv_simd.h:1272-1457 | for every block count, flag mix and overlap the memory afterwards is that of the batches of six, two and one in turn; it is that of one block at a time if the counter block lies apart and no block reads what an earlier one of its batch writes; the bytes of an incomplete last block are returned (with cryptlib.cpp:141-188) |
| `BatchedBlocks.BatchIsSteps` | external/cryptopp/adv_simd.h:1303-1430 | a batch of any size that reads everything before it writes leaves what its blocks leave one at a time, unless one reads what an earlier one of the batch writes and it matters; counters included (with cryptlib.cpp:141-188) |
| `BatchedBlocks.BatchIsStored` | external/cryptopp/adv_simd.h:1308-1319 | with the counter block apart, that it is stored before the xor blocks are read is not seen |
| `BatchedBlocks.BatchedIsSteps` | external/cryptopp/adv_simd.h:1303-1456 | so do all batches of a job together (with cryptlib.cpp:141-188) |
| `BatchOverlap.SafeExactly` | external/cryptopp/adv_simd.h:1303-1430 | for pointers that move, no batch has such a hazard if and only if the first one has none |
| `BatchOverlap.HazardShows` | external/cryptopp/adv_simd.h:1303-1430 | a fixed injective cipher and the zero memory show the earliest hazard of a job: on them the batches and one block at a time differ |
| `BatchOverlap.BatchedExactly` | external/cryptopp/adv_simd.h:1272-1457 | for pointers that move, the batches equal one block at a time for every cipher and every memory, or only for every permutation, if and only if no batch has a hazard or all blocks are xored with themselves before encryption (with cryptlib.cpp:141-188) |
| `BatchOverlap.NoHitsExactly` | external/cryptopp/adv_simd.h:1285-1301 | no hazard means that the output is not ahead of input or xor blocks, in the direction of travel, by at least one block and less than the largest batch |
| `BatchOverlap.OverlapExactly` | external/cryptopp/adv_simd.h:1272-1457 | the same condition for every cipher and memory, as inequalities between the pointers given (with cryptlib.cpp:141-188) |
| `BatchOverlap.OverlapFails` | external/cryptopp/adv_simd.h:1432-1454 | two blocks with the output one block ahead of the input: the versions differ (with cryptlib.cpp:141-188) |
| `BatchOverlap.HazardFreeExactly` | external/cryptopp/adv_simd.h:1285-1301 | no block of a whole job reads what an earlier one wrote exactly when the output does not start strictly ahead inside what is read |
| `BatchOverlap.OutputsFromOriginal` | external/cryptopp/adv_simd.h:1272-1457 | then every output block is computed from the memory before the call, whatever overlaps |
| `BatchOverlap.CbcDecryptionInPlace` | external/cryptopp/modes.cpp:257-258 | batches going backwards, in place, with the preceding blocks as xor blocks: every block becomes its decryption xored with its old predecessor and nothing else changes (with adv_simd.h:1293-1301) |
| `BatchOverlap.CounterMode` | external/cryptopp/modes.cpp:150-154 | counter mode in batches: block k of the output is the encryption of the counter with k added to its last byte, xored with what block k of the input was; the counter is moved on and nothing else changes (with adv_simd.h:1308-1319) |
| `BatchOverlap.ClearInBlocks` | external/cryptopp/adv_simd.h:1303-1430 | the condition in numbers of blocks |
| `BatchOverlap.MissingXorExactly` | external/cryptopp/cryptlib.cpp:152-164 | the base class sets up another job than the batched loops exactly for a missing xor pointer, backwards, with more than one block: every block is then xored with the block at address length − 16, where the batched loops xor nothing (with adv_simd.h:1286-1301) |
| `BatchOverlap.XorTestsExactly` | external/cryptopp/cryptlib.cpp:152-164 | the two tests on the pointer, for any address and length (with adv_simd.h:1286-1301) |
| `BatchOverlap.MissingXorFails` | external/cryptopp/cryptlib.cpp:152-164 | two blocks backwards without an xor pointer |
| `BatchStaying.ValuesDecide` | external/cryptopp/adv_simd.h:1303-1456 | for pointers that stay, the versions agree exactly when they leave the same output block: of a batch only the last block is left, made from what was there before the batch (with cryptlib.cpp:141-188) |
| `BatchStaying.StayingExactly` | external/cryptopp/adv_simd.h:1272-1457 | for pointers that stay, input and output apart, counters included: the versions agree for every cipher and memory, or only for every permutation, if and only if the last xor block is not the output block or the last batch is a single block (with cryptlib.cpp:141-188) |
| `BatchStaying.RepeatedExactly` | external/cryptopp/adv_simd.h:1272-1457 | for one block encrypted in place over and over, xor blocks elsewhere: they agree if and only if there are fewer than two blocks, for any number below 2^128 (with cryptlib.cpp:141-188) |
| `BatchStaying.StayingPointersExactly` | external/cryptopp/adv_simd.h:1285-1301 | the first of these conditions in the pointers given |
| `BatchStaying.RepeatedPointersExactly` | external/cryptopp/adv_simd.h:1285-1301 | the second one |
| `BatchOwnXor.OwnXorExactly` | external/cryptopp/adv_simd.h:1272-1457 | for one block encrypted in place that is also the xor block of one step: the versions agree, in the same two senses, if and only if there are fewer than two blocks, or the xor comes before the cipher and the step is the last one, or the last but one of an odd number (with cryptlib.cpp:141-188) |
| `BatchOwnXor.OwnXorPointersExactly` | external/cryptopp/adv_simd.h:1285-1301 | the same condition in the pointers given |
| `BatchOwnXor.LastButOneForgets` | external/cryptopp/adv_simd.h:1303-1456 | with an odd number of blocks a batch ends before the last one, so that a step there which forgets what the block held makes everything before it irrelevant |
| `BatchStaying.RepeatedFails` | external/cryptopp/adv_simd.h:1432-1454 | two blocks in place: a batch encrypts once, one block at a time twice |
| `BatchStaying.CbcMacInPlace` | external/cryptopp/ccm.cpp:92-97 | the call by which CCM and CMAC chain whole blocks, a register that stays with the data as xor blocks and nothing taken together, leaves the CBC-MAC of the data in the register and changes nothing else (with cmac.cpp:100-102, adv_simd.h:1432-1456) |
| `BitStrings.OrAppends` | external/cryptopp/basecode.cpp:62-62 | bits or-ed into the zeros left for them are appended (with basecode.cpp:146-154) |
| `BitStrings.GroupOfJoin` | external/cryptopp/basecode.cpp:56-79 | cutting joined values into groups gives the values back, whatever incomplete group follows |
| `BitStrings.JoinOfGroup` | external/cryptopp/basecode.cpp:146-162 | joining the groups of a bit string and the rest gives the bit string back |
| `BaseCodeSpec.JoinOfChars` | external/cryptopp/basecode.cpp:95-103 | the characters of a message joined again are its bits and fewer than one character of zeros |
| `BaseCodeSpec.InitializeDecodingLookupArray` | external/cryptopp/basecode.cpp:178-197 | each character has the value of the last letter that stands for it, and −1 if none does, with or without regard to case |
| `BaseCodeSpec.TableInvertsExactly` | external/cryptopp/basecode.cpp:178-197 | the table inverts the alphabet if and only if no later letter stands for an earlier one |
| `BaseCodeSpec.TableSkipsExactly` | external/cryptopp/basecode.cpp:139-141 | a character is skipped if and only if no letter stands for it (with basecode.cpp:178-197) |
| `BaseCodeSpec.RoundTrip` | external/cryptopp/basecode.cpp:48-113 | decoding the grouped, padded encoding of any message gives the message, for every base of 1 to 7 bits, every table that inverts the alphabet, and padding, separator and terminator without a value (with basecode.cpp:133-176, basecode.cpp:214-243) |
| `BaseCodeBits.EncodedExactly` | external/cryptopp/basecode.cpp:48-113 | exactly what an encoding is: as many letters as the bits need, each with its bits of the message from the top and zeros behind, then as few padding characters as complete a block (with basecode.cpp:40-43) |
| `BaseCodeBits.BlockIsLeast` | external/cryptopp/basecode.cpp:40-43 | a block is the fewest characters that hold whole bytes |
| `BaseCodeBits.DecodedAt` | external/cryptopp/basecode.cpp:133-174 | every bit of a decoding is the bit in its place of the values of the characters that count |
| `BaseCodeBits.DecodedLength` | external/cryptopp/basecode.cpp:133-174 | bits that do not fill a byte are dropped |
| `BaseCodeBits.OneValue` | external/cryptopp/basecode.cpp:139-141 | a character counts exactly if its entry is a byte |
| `BaseCodeBits.GroupedParts` | external/cryptopp/basecode.cpp:221-236 | parts of the group size with a separator in front of each but the first |
| `BaseCodeBits.StandsForExactly` | external/cryptopp/basecode.cpp:187-195 | a letter stands for itself, and for the other case where that does not matter |
| `BaseEncoder.CommonBits` | external/cryptopp/basecode.cpp:40-43 | the loop finds the smallest common block: 8, 4 or 2 characters |
| `BaseEncoder.Encoder.constructor` | external/cryptopp/basecode.cpp:22-46 | an empty message and an empty buffer of that size |
| `BaseEncoder.Encoder.TakeBits` | external/cryptopp/basecode.cpp:58-78 | one turn of the inner loop moves as many source bits into the cell as it has room for; the bits packed are the bits taken |
| `BaseEncoder.Encoder.FillWhole` | external/cryptopp/basecode.cpp:63-71 | a completed cell holds the next character of the bit stream and the cell after it is zero |
| `BaseEncoder.Encoder.FillPart` | external/cryptopp/basecode.cpp:73-77 | a cell with room left holds all bits so far |
| `BaseEncoder.Encoder.PutByte` | external/cryptopp/basecode.cpp:56-79 | after a byte the packed bits are the message's bits, and no cell past the buffer is touched |
| `BaseEncoder.Encoder.FlushBlock` | external/cryptopp/basecode.cpp:81-93 | a full buffer is output as letters |
| `BaseEncoder.Encoder.ToLetters` | external/cryptopp/basecode.cpp:85-89 | the cells become letters of the alphabet, in place |
| `BaseEncoder.Encoder.BlockEnd` | external/cryptopp/basecode.cpp:81-93 | a byte either fills the block exactly or leaves the position inside the buffer and past its first cell |
| `BaseEncoder.Encoder.PutBytes` | external/cryptopp/basecode.cpp:51-94 | all bytes join the message; the buffer is cleared at the start of a block only |
| `BaseEncoder.Encoder.LastBlock` | external/cryptopp/basecode.cpp:97-108 | what is still to be output completes the encoding of the message |
| `BaseEncoder.Encoder.EndMessage` | external/cryptopp/basecode.cpp:95-111 | the output of the message is its encoding, padding included, whatever had been output before |
| `BaseEncoder.Encoder.Put` | external/cryptopp/basecode.cpp:48-113 | chunks add up: the encoding output at the end is that of everything put since the last end |
| `BaseDecoder.CommonBits` | external/cryptopp/basecode.cpp:125-128 | the loop finds the same common block from the other side |
| `BaseDecoder.Decoder.constructor` | external/cryptopp/basecode.cpp:115-131 | an empty message and an empty buffer of that size |
| `BaseDecoder.Decoder.PutWithin` | external/cryptopp/basecode.cpp:147-162 | a value that fits is appended to the packed bits |
| `BaseDecoder.Decoder.PutAcross` | external/cryptopp/basecode.cpp:147-162 | a value that does not fit completes one byte and begins the next, which is inside the buffer |
| `BaseDecoder.Decoder.MoveTo` | external/cryptopp/basecode.cpp:156-161 | whole bytes move from the bit position to the byte position |
| `BaseDecoder.Decoder.PutValue` | external/cryptopp/basecode.cpp:146-162 | the value's bits join the packed bits, and the position stays inside the block |
| `BaseDecoder.Decoder.PutText` | external/cryptopp/basecode.cpp:136-169 | all characters join the text; those without a value change nothing else |
| `BaseDecoder.Decoder.BlockEnd` | external/cryptopp/basecode.cpp:164-168 | a full buffer is output |
| `BaseDecoder.Decoder.EndMessage` | external/cryptopp/basecode.cpp:170-174 | the output of the message is its decoding; spare bits are dropped |
| `BaseDecoder.Decoder.Put` | external/cryptopp/basecode.cpp:133-176 | chunks add up |
| `GroupedCode.GroupedExtends` | external/cryptopp/basecode.cpp:227-231 | text that fits into the open group is appended |
| `GroupedCode.GroupedBreaks` | external/cryptopp/basecode.cpp:221-231 | after a full group a separator comes first |
| `GroupedCode.Grouper.constructor` | external/cryptopp/basecode.cpp:199-212 | an empty message |
| `GroupedCode.Grouper.PutGroup` | external/cryptopp/basecode.cpp:221-231 | a separator if the last group was full, then as much text as the group takes |
| `GroupedCode.Grouper.PutText` | external/cryptopp/basecode.cpp:217-235 | the output so far is the grouped text so far |
| `GroupedCode.Grouper.Put` | external/cryptopp/basecode.cpp:214-243 | the output of the message is the grouped text and the terminator, whatever the chunks |
| `GroupedCode.EncodeChunks` | external/cryptopp/basecode.cpp:48-113 | a message in any chunks is encoded as a whole |
| `GroupedCode.GroupChunks` | external/cryptopp/basecode.cpp:214-243 | text in any chunks is grouped as a whole |
| `GroupedCode.DecodeChunks` | external/cryptopp/basecode.cpp:133-176 | text in any chunks is decoded as a whole |
| `GroupedCode.EncodeGroupDecode` | external/cryptopp/basecode.cpp:22-243 | encoder, grouper and decoder in a row give the message back for every duplicate-free alphabet, every padding, separator and terminator outside it, and any chunks at every joint |
| `Blake2Hash.ChainSnoc` | external/cryptopp/blake2.cpp:544-567 | one more block extends the chain with the offset of its end |
| `Blake2Hash.HashWrittenOut` | external/cryptopp/blake2.cpp:311-325 | the hash as a chain of compressions written out: from the initialization vector xored with digest size, key length, 1, 1 and zeros, over key block and message, with counts and flags (with blake2.cpp:503-677, blake2.h:103-103) |
| `Blake2Hash.ChainsAgree` | external/cryptopp/blake2.cpp:503-677 | such a chain has only one result |
| `Blake2Hash.OneBlockHash` | external/cryptopp/blake2.cpp:311-325 | the hash of at most one block without a key, as one compression (with blake2.cpp:503-677) |
| `Blake2Hash.KeyAloneHash` | external/cryptopp/blake2.cpp:311-325 | the hash of nothing with a key, as one compression (with blake2.cpp:503-677) |
| `Blake2Hash.IterateChain` | external/cryptopp/blake2.cpp:540-613 | whole blocks that are not the last can be compressed as they come: the iteration of section 3.3 of RFC 7693 goes on from the chain |
| `Blake2Hash.SplitIsUnique` | external/cryptopp/blake2.cpp:540-613 | with the last block held back, compressed blocks and buffer are determined by the text |
| `Blake2Hash.CounterAdds` | external/cryptopp/blake2.cpp:665-677 | the carry into the second word is exactly the wrap-around of the first: the two words are the number of bytes modulo 2^(2w) |
| `Blake2Hash.Blake2.IncrementCounter` | external/cryptopp/blake2.cpp:665-677 | the two words count on by the given number |
| `Blake2Hash.Blake2.CompressNext` | external/cryptopp/blake2.cpp:544-567 | a block that is not the last one joins the chain with its offset |
| `Blake2Hash.Blake2.CompleteBlock` | external/cryptopp/blake2.cpp:546-558 | the buffer is completed, compressed and emptied |
| `Blake2Hash.Blake2.Overflow` | external/cryptopp/blake2.cpp:544-567 | all blocks but the last are compressed; between one byte and a block is left over |
| `Blake2Hash.Blake2.Update` | external/cryptopp/blake2.cpp:540-613 | everything absorbed so far, key block included, is followed by the input; the buffer is empty only if nothing came |
| `Blake2Hash.Blake2.Put` | external/cryptopp/blake2.cpp:540-613 | on a keyed or unkeyed object the message grows by the input |
| `Blake2Hash.Blake2.Restart` | external/cryptopp/blake2.cpp:462-538 | the state of an object that has absorbed its key block and nothing else |
| `Blake2Hash.Blake2.constructor` | external/cryptopp/blake2.cpp:326-460 | a new object in that state |
| `Blake2Hash.Blake2.CompressLast` | external/cryptopp/blake2.cpp:615-657 | flags, tail count, zero fill and last compression give the hash of the message |
| `Blake2Hash.Blake2.TruncatedFinal` | external/cryptopp/blake2.cpp:615-663 | refuses sizes above the digest size and changes nothing then; otherwise returns a prefix of the hash and leaves the object restarted |
| `Blake2Hash.SameState` | external/cryptopp/blake2.cpp:462-663 | objects keyed alike that took the same message are in the same state, however it was split: a finished object and a new one in particular |
| `Blake2Hash.HashChunks` | external/cryptopp/blake2.cpp:462-677 | any division of any message, keyed or not, in BLAKE2b and BLAKE2s, gives the hash of section 3.3 of RFC 7693, which is the end of such a chain |
| `Adler32Checksum.AddBytes` | external/cryptopp/adler32.cpp:17-22 | up to eight additions from a reduced first sum in 32-bit arithmetic do not wrap, and the first sum stays below twice the base, so that one subtraction reduces it (with adler32.cpp:31-38) |
| `Adler32Checksum.Reduce` | external/cryptopp/adler32.cpp:24-26 | both sums stay the same up to multiples of the base; the first is reduced (with adler32.cpp:43-46) |
| `Adler32Checksum.AddGroups` | external/cryptopp/adler32.cpp:29-47 | reducing the second sum only where a multiple of 0x8000 bytes is left keeps it below 2^32 throughout and reduced at the end |
| `Adler32Checksum.Adler32.constructor` | external/cryptopp/adler32.h:18-26 | the sums of nothing |
| `Adler32Checksum.Adler32.Reset` | external/cryptopp/adler32.h:26-26 | the sums of nothing again |
| `Adler32Checksum.Adler32.Update` | external/cryptopp/adler32.cpp:8-54 | the sums are those of everything since the reset, for every length and split |
| `Adler32Checksum.Adler32.TruncatedFinal` | external/cryptopp/adler32.cpp:56-80 | refuses more than four bytes; otherwise the first bytes of the checksum, most significant first, and a reset |
| `Adler32Checksum.ChecksumChunks` | external/cryptopp/adler32.cpp:8-80 | any division gives the checksum of section 2.2 of RFC 1950 of the whole |
| `Adler32Checksum.ByteByByteIsChecksum` | external/cryptopp/adler32.cpp:8-54 | reducing after every byte gives the same sums as never reducing until the end |
| `Adler32Checksum.SumsNext` | external/cryptopp/adler32.cpp:17-22 | where both sums start and how they grow (with adler32.h:26-26) |
| `Adler32Checksum.SumsAppend` | external/cryptopp/adler32.cpp:8-54 | the sums of two texts one after the other, from those of each |
| `Adler32Checksum.ChecksumFields` | external/cryptopp/adler32.cpp:56-75 | the halves of the checksum are the two sums modulo 65521 |
| `Adler32Checksum.KnownChecksum` | external/cryptopp/adler32.cpp:8-75 | the checksum of “Wikipedia” is 11e60398 |
| `Arc4Cipher.KeyedRunsArePermutations` | external/cryptopp/arc4.cpp:28-65 | after any key and any number of steps the state is a permutation of 0..255 |
| `Arc4Cipher.ScheduleWrittenOut` | external/cryptopp/arc4.cpp:35-49 | the key schedule as a sequence of tables and indices: from the identity, round i adds entry i and key byte i mod the key length to the index and exchanges entry i with the one there |
| `Arc4Cipher.StepWrittenOut` | external/cryptopp/arc4.cpp:55-65 | a step exchanges two entries, and its byte is the entry at their sum |
| `Arc4Cipher.StreamWrittenOut` | external/cryptopp/arc4.cpp:67-71 | the key stream is what such steps give one after another |
| `Arc4Cipher.EncryptionWrittenOut` | external/cryptopp/arc4.cpp:28-119 | an encryption is the text xored with that stream, from that schedule, less the bytes discarded |
| `Arc4Cipher.StepIsReversible` | external/cryptopp/arc4.cpp:55-65 | a step has exactly one predecessor, which is computed |
| `Arc4Cipher.RunIsReversible` | external/cryptopp/arc4.cpp:55-65 | any number of steps can be undone |
| `Arc4Cipher.RunAdds` | external/cryptopp/arc4.cpp:67-71 | two runs make one: states and key stream bytes |
| `Arc4Cipher.DiscardIsSuffix` | external/cryptopp/arc4.cpp:102-119 | discarding n bytes and generating gives the suffix of one long generation |
| `Arc4Cipher.EncryptAppend` | external/cryptopp/arc4.cpp:73-100 | encrypting two parts one after the other is encrypting the whole |
| `Arc4Cipher.EncryptInverts` | external/cryptopp/arc4.cpp:73-100 | encrypting twice from the same state gives the data back |
| `Arc4Cipher.Arc4.Schedule` | external/cryptopp/arc4.cpp:35-49 | the table after the key schedule, with the key repeated |
| `Arc4Cipher.Arc4.constructor` | external/cryptopp/arc4.cpp:28-53 | the keyed state after the bytes to discard; the table is the last of a written-out schedule |
| `Arc4Cipher.Arc4.MakeByte` | external/cryptopp/arc4.cpp:55-65 | one step of the state and the byte it gives, written out |
| `Arc4Cipher.Arc4.GenerateBlock` | external/cryptopp/arc4.cpp:67-71 | the array is filled with the key stream, the bytes of steps one after another |
| `Arc4Cipher.Arc4.ProcessData` | external/cryptopp/arc4.cpp:73-100 | the memory is that of reading, xoring and writing one byte after the other, in either branch |
| `Arc4Cipher.WrittenIsEncryption` | external/cryptopp/arc4.cpp:73-100 | in place, or when the output does not start ahead inside the input, the output is the encryption of what the input was and nothing else in memory changes |
| `Arc4Cipher.WrittenAhead` | external/cryptopp/arc4.cpp:89-96 | otherwise the output feeds back: every byte after the first few is that of the output so many places earlier, xored with the key stream once more |
| `Arc4Cipher.EncryptsExactly` | external/cryptopp/arc4.cpp:82-96 | the output is the encryption of the input for every memory if and only if it does not start ahead inside the input |
| `Arc4Cipher.AheadShows` | external/cryptopp/arc4.cpp:82-96 | for every state and every such place, a memory on which the output is not the encryption of the input |
| `Arc4Cipher.Arc4.DiscardBytes` | external/cryptopp/arc4.cpp:102-119 | that many steps |
| `Arc4Cipher.ProcessChunks` | external/cryptopp/arc4.cpp:73-100 | any chunks, one call each, give the encryption of the whole, written out from the key on |
| `Arc4Cipher.RoundTrip` | external/cryptopp/arc4.cpp:28-119 | two objects keyed alike undo each other, however the text is divided for either |

## Left out

- The coin's own records, RPC interfaces and scripts: data definitions without algorithms.
- HTTP and terminal libraries, benchmarks, parameter plumbing, names and wrappers: input and output, or easy members.
- Cipher tables and rounds, and the SIMD compression variants: fixed-width bit-level work; ciphers and compression are arbitrary functions here.
- `AdvancedProcessBlocks64_6x2_SSE`: it packs two blocks into a word, goes backwards from the last word and moves pointers that have an increment on by one block before the blocks that are left; backwards, a pointer that stays is one block below that of the base class. The loops modelled here have blocks and words of one size.
- The NEON and AltiVec templates: the same shape as the SSE ones of their block size with other batch sizes.
- `EncodedObjectFilter`: the behaviour meant by its identifier state is unclear.
- BLAKE2 salt and personalization: `Restart` resets the parameter block that holds them, so they are empty in the model; a caller's own parameter block or counter is not modelled.
- `PublicBlumBlumShub::ProcessData`: the output xored with a text.
- BlumBlumShubGenerator.PublicBlumBlumShub.constructor: moduli below 2, where no bits are left to deliver, are not modelled.
- BlumBlumShubGenerator.BlumBlumShub.constructor: nor are factors below 2.
- SeekedStreams.BitsLand: for equal primes that do not divide the seed only the state has an exact condition.
- Euclid.MultiplicativeInverse: the modulus is positive, as `ModularArithmetic` has it.
- Result references that alias in `AbstractGroup`: operations return values.
- BerReencode.DERReencode: what a failed re-encoder leaves in the queues, where destructors still write, is not stated.
- Groups.TimesAdd: the inverse laws are assumed only where `InversionIsFast` holds, since the code negates only then.
- Cascade.CascadeScalarMultiply: exponents are non-negative, as the bit tests of the source take them.
- GeneralCascade.GeneralCascadeMultiplication: an empty range, which the source does not guard against, is not modelled.
- CcmStream.Ccm.UncheckedSpecifyDataLengths: lengths are declared before any input, as CCM demands; the two halves of `m_buffer` are two sequences.
- CcmStream.Ccm.constructor: digest sizes that `SetKey` refuses are not modelled.
- CcmStream.Ccm.AuthenticateLastFooterBlock: tag sizes above 16, more than a tag has, are not modelled.
- CcmStream.Ccm.TruncatedFinal: nor are they here.
- CcmRuns.Process: nor are they here.
- CcmStream.Ccm.Update: byte totals are unbounded, so a header of 2^64 bytes or more does not wrap around.
- CcmStream.Ccm.ProcessData: output is the input array from its start or another array; partly overlapping buffers are not modelled.
- CcmSpec.CounterIsAddition: the counter mode itself is not modelled beyond its seek; blocks come in order.
- BatchedBlocks.AdvancedProcessBlocks: all three pointers are in one memory of blocks, so overlaps that are not whole blocks are not modelled.
- BatchedBlocks.BatchIsSteps: a counter block that is also an output or xor block is not covered.
- BatchedBlocks.BatchedIsSteps: nor is it here.
- BatchStaying.RepeatedExactly: 2^128 blocks or more, where chains over a finite set of blocks can agree by coincidence, are more than a length holds.
- BaseDecoder.Decoder.Put: table values of 2^w or more, which no table built for the base has, are not modelled.
- GroupedCode.Grouper.Put: group sizes are not negative.
- Blake2Hash.Blake2.TruncatedFinal: h is its memory image, as on a little-endian machine.
