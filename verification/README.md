# Verification models of the Niro pool

This directory models the parts of the mining pool whose correctness is hard to see from the code, and proves
properties of the models with Dafny. The command to check it is `dafny verify dfyconfig.toml`.

Code that changes state in place is modelled as methods over arrays and objects with loop invariants, and each such
method is proved against a specification function. What the code is for is then proved about those functions.

**Hashing.**
`Threefish` is the cipher as section 3.3 of the Skein specification defines it, with the constants from before version
1.3 that the code uses. Its word permutations have order four, and for every key and tweak it is a bijection with an
explicit inverse. `SkeinBlock` is the code's block function: rounds that rename registers, and key injections that read
a window sliding through one buffer in which tweak words overwrite key words. Both the looping and the unrolled form
compute the same cipher, for any number of blocks. `SkeinHash` adds the buffer that holds back the last block: however a
message is cut into updates, the hash is a function of the joined parts.
`KeccakSponge` proves the whole-block, whole-lane and partial-lane paths equal to a byte-at-a-time sponge over an
arbitrary permutation, for absorbing and for squeezing, and states exactly when the 32-bit narrowing of chunk sizes is
harmless. `KeccakHash` connects this to the bit-level sponge of FIPS 202 (sections 4 and 5.1), for messages of any
bit length and suffixes that spill into a new byte. `KeccakF` proves the in-place permutation equal to the step
mappings of FIPS 202, section 3.2, on every state, and `KeccakBytes` joins the two layouts. `Words` and `Bits` hold the
word arithmetic.

**Prime clusters.** `PrimeCluster` covers the sieve, the three scans that rate a prime cluster, and why each of them
stops: a number-theoretic argument gives recurring runs of candidates that all fail. It says exactly when two of the
scans return the same rating.

**The pool's books.** `Coinbase` is the payout transaction, `Filling` how it is filled and exactly when the narrowing of
returned values to 32 bits is harmless, `Rewards` who is paid what, `Ledger` one round's effect on the accounts as
functions, `LedgerLaws` conservation of value, `RefundLaws` what a refund undoes, `Pool` the handlers over their two
record stores with the invariants they keep, and `PoolRun` the pool as a state machine: the books and the money after
any sequence of requests.

**Formats.** `Bytes`, `Records` and `Database` cover the records on disk, `Packet` the wire protocol under every
schedule of arrivals, `Radix`, `BigNum`, `Base58`, `Address` and `BaseUint` the number representations, and `Ascii`,
`JsonText`, `JsonValue`, `JsonBuilder` and `JsonReader` the JSON writer and reader.

**Definitions stated a second way.** A specification function that code and theorem share is also pinned down without its
own expression. The words of the extended key have even or odd numbers of bits set as the parity constant demands
(`Threefish.KeyParity`); MIX, rounds and subkeys are given in plain arithmetic (`MixedPair`, `RoundWord`,
`SubkeyOf1024`); every block, the last one, the configuration block and each output block can be got back from the
chaining words around it under the position and tweak bits it must have (`SkeinBlock.StepDecrypts`,
`SkeinHash.LastDecrypts`, `ConfigDecrypts`, `OutputDecrypts`), and the position after a message is its length
(`FinishedCount`). A Keccak round is one formula over the bits it starts from (`KeccakF.RoundByBits`), its round bits
follow the standard's linear recurrence (`RcRecurrence`), and the output is the squeezing loop of the standard bit by
bit (`KeccakHash.OutputIsSqueezed`). The fraction of a rating is bounded by the Fermat remainder and worked out for 113
(`PrimeCluster.FractionIs`, `RatingOf113`). The two sides of the fee are bounded in the reward and add up to it or to one
less (`Rewards.FeeSplit`), the bounds carry over to any run of the pool (`PoolRun.RunGives`), and one round is worked out
in numbers (`RefundLaws.RoundInNumbers`). Bytes, records, packets and texts have examples and layouts.

Where code and expectation part ways, the code is kept and the exact condition is proved, with an input that fails:

- A 32-bit chunk size in the sponge is the intended one if and only if `ChunkFits` holds
  (`KeccakSponge.ChunkExact`); otherwise the normal lane overruns the block or stops making progress (`ChunkFails`,
  `ChunkOverruns`).
- The `int` that `AddTransaction` returns is the difference it stands for if and only if that difference is an int
  (`Coinbase.AttemptExact`). Every account is paid as intended if and only if no account met below the maximum is too
  large by more than 2^31, and no payment whose narrowed remainder is negative stops a filling that had more to pay, or
  pays the same account again (`Filling.FilledExactly`, with the condition spelled out in `StepExact`; for maxima below
  2^31 in `FaithfulBelow`).
  Two inputs fail: a maximum of 2^31 + 1 with a balance of 1 (`Rewards.WideRewardIsNotPaidOut`), and a maximum of 1000
  with a balance of 2^32 (`Rewards.OversizedBalanceIsSkipped`). The finder's remainder completes the transaction if and
  only if it is an int (`Filling.CompletedExactly`), so below a maximum of 2^31 outputs and fee are always the reward
  (`Rewards.RewardIsPaidOut`).
- `UpdateBalances` conserves value if and only if the block finder's record is on file, or there is no finder, or nothing
  is lost to it (`LedgerLaws.UpdateConserves`). A lookup of a missing finder creates a blank record with an empty key, and
  what it is credited is stored under that empty key. Clearing the shares then writes the blank record over it, so a
  whole round conserves value under a narrower condition (`LedgerLaws.NewRoundConserves`; `RewardIsLost` is an input).
- A refund right after a round restores an account if and only if its payout did not exceed its balance, and the finder
  keeps the remainder under an exact condition (`RefundLaws.RefundRestores`, `RefundLaws.RefundLeavesRemainder`;
  `OverpaidIsNotRestored` is an input).
- A refund right after a round is skipped if and only if maximum and fee of the payout transaction add up to zero
  (`Pool.Pool.RoundAndRefund`). So a round that is orphaned before any payout transaction was built is never refunded, and
  its accounts are as before if and only if there was no reward after the fee (`Pool.Pool.OrphanedFirstRound`).
- The marking loop of the sieve ends up to a size of 2^31, and above it does not (`PrimeCluster.Eratosthenes`,
  `PrimeCluster.LargerSievesRunOn`). The program asks for 80.
- The gap counter and the window scan count the same members for any test (`PrimeCluster.GapCount`, `WindowCount`). The
  functions around them rate a start differently if and only if a sieve prime divides it and base 2 accepts it
  (`PrimeCluster.MeasurementsAgree`); 3 is such a start. The comment at src/prime.cpp:95-96 says the fraction comes
  from the last prime + 2; the code takes the last prime + 14, a number no scan has looked at, which may itself pass
  (`PrimeCluster.RatedNumberCanPass`).
- The reader completes a packet as it was written if and only if it is well formed (`Packet.CompletedExactly`); for a data
  packet that says how much data it holds, if and only if it holds some (`Packet.DeliveredExactly`). After one of length
  zero the next four bytes are taken for a length (`Packet.EmptyDataPacketMisleads`).
- A byte vector survives the trip through a big number if and only if it has no redundant sign byte and is not negative
  zero (`BigNum.IntegerRoundTrip`; `SignByteIsDropped` is an input).
- A block comes back from disk exactly as written if and only if its payout's maximum is its recorded value and its
  payout's value so far is fee and outputs together (`Records.BlockUnchanged`). The pool records maximum and fee together
  as the value, so its own blocks come back unchanged only without a fee (`Records.RoundBlockUnchanged`).

Inputs of the model that the program gets from elsewhere are parameters: the permutation under the sponge, the checksum
of an address, the characters that count as printable, the Miller-Rabin verdict, the order in which a map yields its
keys, the order of accounts by balance, and whether a submitted block is at the current height.

## Model

| member | source | states |
|---|---|---|
| Words.XorCancels | src/hash/skein_block.cpp:103-105 | the exclusive-or that MIX adds to its second word is undone by the same exclusive-or |
| Words.RotateBack | src/hash/skein_block.cpp:103-105 | rotating left and then right by any number of places gives every word back |
| Words.RotateForth | src/hash/skein_block.cpp:103-105 | rotating right and then left by any number of places gives every word back |
| Words.RotLShifts | src/hash/skein_port.h:24-26 | for 0 to 64 places, repeated one-place rotation is the shift form: low bits moved up plus high bits moved down |
| Words.ValueOfLowBytes | src/hash/skein_port.h:88-115 | a number below 2^(8k) is the value of its k little-endian bytes |
| Words.LowBytesOfValue | src/hash/skein_port.h:88-115 | a byte string is the little-endian bytes of its value |
| Words.LoadStore | src/hash/skein_port.h:88-115 | storing a word and loading it, and loading eight bytes and storing them, change nothing |
| Threefish.MixUnmix | src/hash/skein_block.cpp:103-105 | MIX on two words has a two-sided inverse for every rotation |
| Threefish.MixUnmixAll | src/hash/skein_block.cpp:525-533 | mixing all pairs of a block has a two-sided inverse |
| Threefish.FourPermutes | src/hash/skein_block.cpp:587-597 | four applications of a variant's word permutation give the words back, which is why four round lines close the renaming |
| Threefish.RegisterOrders | src/hash/skein_block.cpp:135-145 | the register lists of the later round lines of Skein-256 and Skein-512 are the square and cube of the word permutation |
| Threefish.RegisterOrders1024 | src/hash/skein_block.cpp:587-597 | the register lists of the third and fourth round lines of Skein-1024 are the square and cube of the word permutation |
| Threefish.RoundUnround | src/hash/skein_block.cpp:525-533 | one round, MIX then permute, has a two-sided inverse |
| Threefish.MixedPair | src/hash/skein_block.cpp:525-533 | MIX in plain arithmetic: the first word becomes the sum modulo 2^64, and the second differs from it in bit z exactly when its own bit z - r modulo 64 is set |
| Threefish.RoundWord | src/hash/skein_block.cpp:525-533 | word i of a round is, for every rotation below 64, the sum or the rotated and flipped word that MIX leaves at place pi[i] |
| Threefish.KeyParity | src/hash/skein_block.cpp:495-498 | the extended key is the key and one word more, and for each of the 64 bits an odd number of its words has the bit set if and only if the bit is an even one |
| Threefish.TweakParity | src/hash/skein_block.cpp:500-500 | the third tweak word makes the number of tweak words with a bit set even, for every bit |
| Threefish.SubkeyOf1024 | src/hash/skein_block.cpp:564-579 | the sixteen words of every subkey of the 1024-bit variant: key words from place s on, modulo 17, with two tweak words and the subkey number added modulo 2^64 in the last three |
| Threefish.KeyedRoundInverse | src/hash/skein_block.cpp:563-584 | a round with the subkey that precedes it has a two-sided inverse for every key and tweak |
| Threefish.RoundsUnrounds | src/hash/skein_block.cpp:587-648 | undoing d rounds in reverse order gives back the block they started from |
| Threefish.UnroundsRounds | src/hash/skein_block.cpp:587-648 | doing d rounds on what undoing them yields gives back the block |
| Threefish.EncryptIsBijective | src/hash/skein_block.cpp:506-648 | for every key and tweak the cipher before feed-forward is a bijection on blocks with Decrypt as inverse |
| Threefish.T256IsValid | src/hash/skein.h:274-282 | the Skein-256 constants form a variant: a word permutation of order four, eight rows of rotations, whole groups of eight rounds |
| Threefish.T512IsValid | src/hash/skein.h:284-292 | the same of the Skein-512 constants |
| Threefish.T1024IsValid | src/hash/skein.h:294-302 | the same of the Skein-1024 constants |
| SkeinBlock.RoundMacro | src/hash/skein_block.cpp:525-533 | the macro under any register order p mixes in place: read through p, the registers are the mixed words |
| SkeinBlock.MixPair | src/hash/skein_block.cpp:525-533 | one line of the macro changes the two registers that hold words 2j and 2j+1 and no other |
| SkeinBlock.MixRegisters | src/hash/skein_block.cpp:103-105 | add, rotate, exclusive-or on two registers is MIX of the specification; the others keep their values |
| SkeinBlock.PowersArePermutations | src/hash/skein_block.cpp:587-597 | the four register orders of a variant are all permutations |
| SkeinBlock.FourRoundMacros | src/hash/skein_block.cpp:587-597 | four renaming macros in a row equal four rounds of MIX followed by the word permutation, with the words back in their registers |
| SkeinBlock.NextKeyed | src/hash/skein_block.cpp:587-597 | four specification rounds and an injection lead from the state after subkey s to the state after subkey s+1 |
| SkeinBlock.LastKeyed | src/hash/skein_block.cpp:599-648 | the state after the last subkey is the ciphertext |
| SkeinBlock.WindowReadsSubkey | src/hash/skein_block.cpp:564-579 | reading key words at 3+s+i and tweak words at s and s+1 of the overlaid buffer yields exactly word i of subkey s, for every s |
| SkeinBlock.WindowStarts | src/hash/skein_block.cpp:478-500 | the freshly loaded buffer is the window before injection 1 |
| SkeinBlock.WindowSlides | src/hash/skein_block.cpp:580-581 | the two copies after an injection slide the window on by one place; the key word they overwrite is dead and no index leaves the buffer |
| SkeinBlock.InjectLooping | src/hash/skein_block.cpp:563-581 | the looping injection adds subkey s in place, leaves the window of s+1, and keeps every word below it |
| SkeinBlock.InjectUnrolled | src/hash/skein_block.cpp:540-557 | the unrolled injection, indexing modulo the key and tweak lengths, adds subkey s in place |
| SkeinBlock.Context.constructor | src/hash/skein.h:60-86 | a new context has arrays of its variant's sizes |
| SkeinBlock.LoadSchedule | src/hash/skein_block.cpp:478-500 | the buffer starts with the extended tweak and then the extended key: the key words are in place, an odd number of the words of the extended key has a bit set for exactly the even bits, and an even number of tweak words for every bit |
| SkeinBlock.InjectFirst | src/hash/skein_block.cpp:506-521 | the first injection leaves the block plus subkey 0 |
| SkeinBlock.FeedForward | src/hash/skein_block.cpp:649-675 | the chaining words become the exclusive-or of the cipher output and the input block |
| SkeinBlock.FourRoundsInject | src/hash/skein_block.cpp:588-592 | four renaming rounds and an injection move the registers from the state after subkey r-1 to the state after subkey r |
| SkeinBlock.EightRounds | src/hash/skein_block.cpp:587-597 | the eight-round group advances the state by two subkeys and the window by two places |
| SkeinBlock.EncryptLooping | src/hash/skein_block.cpp:584-648 | the whole looping form, in a buffer of exactly the declared length, computes the cipher and leaves the tweak words alone |
| SkeinBlock.EncryptUnrolled | src/hash/skein_block.cpp:540-557 | the whole unrolled form computes the same cipher |
| SkeinBlock.Encipher | src/hash/skein_block.cpp:506-648 | first injection and all rounds, in either form, compute the cipher and leave the tweak words alone |
| SkeinBlock.ProcessOne | src/hash/skein_block.cpp:474-672 | one turn of the loop is one chaining step of UBI, with the tweak words kept in the buffer |
| SkeinBlock.ProcessBlock | src/hash/skein_block.cpp:471-676 | in either form, blkCnt blocks leave the chain that UBI (section 3.4 of the Skein specification) gives for them, tweak count and first flag included |
| SkeinBlock.ScheduleParity | src/hash/skein_block.cpp:478-500 | a buffer that holds extended tweak and key holds the key itself from place 3 on, an odd number of key words for exactly the even bits, and an even number of tweak words for every bit |
| SkeinBlock.StepDecrypts | src/hash/skein_block.cpp:471-676 | the block can be got back from the chaining words around it: taken off the new ones, it decrypts under the old ones and the tweak that has counted it |
| SkeinBlock.ClearFirstBits | src/hash/skein.h:238-238 | clearing the first flag clears bit 62 and no other |
| SkeinHash.Ready | src/hash/skein.cpp:532-567 | the number of processed blocks always holds back between 1 and a whole block of bytes of a nonempty message |
| SkeinHash.ReadyUnique | src/hash/skein.cpp:532-567 | that number is the only one that does |
| SkeinHash.BlocksPrefix | src/hash/skein.cpp:553-556 | blocks already processed do not depend on what follows them |
| SkeinHash.BlocksConcat | src/hash/skein.cpp:535-557 | processing the first k blocks and then n more is processing k+n blocks of the joined message |
| SkeinHash.BlocksTweak | src/hash/skein.h:225-236 | after n blocks the tweak counts n blocks of bytes, and the first flag is off once a block was processed |
| SkeinHash.FillBuffer | src/hash/skein.cpp:562-567 | bytes are appended to the block buffer |
| SkeinHash.ProcessMore | src/hash/skein.cpp:553-556 | processing n blocks straight from the input keeps the context that of the message so far |
| SkeinHash.KeepRest | src/hash/skein.cpp:562-567 | buffering at most one block after a flush leaves the context of the longer message |
| SkeinHash.FinishBuffered | src/hash/skein.cpp:535-549 | completing a partly filled buffer and processing it leaves no byte buffered and the right number of blocks behind |
| SkeinHash.ProcessDirect | src/hash/skein.cpp:551-567 | all full blocks but the last bytes are processed from the input and the last 1 to B bytes are kept |
| SkeinHash.KeepShort | src/hash/skein.cpp:562-567 | input that fits behind the buffered bytes is only copied |
| SkeinHash.Update | src/hash/skein.cpp:526-570 | the context depends only on the concatenated message, however it was cut into updates |
| SkeinHash.FinishMessage | src/hash/skein.cpp:580-584 | the held-back bytes, zero padded and counted without the padding, are processed as the final block; the position afterwards is the one before the message plus its length |
| SkeinHash.FinishedCount | src/hash/skein.cpp:580-584 | for every message the position after the last block is the position before it plus the message length modulo 2^64: padding is not counted |
| SkeinHash.FinishedFlags | src/hash/skein.cpp:580-584 | afterwards bit 63 of the second tweak word is set, bit 62 is clear, and the others are those of the chain the message started from |
| SkeinHash.SetFinalBits | src/hash/skein.cpp:580-580 | setting the final flag sets bit 63 and no other |
| SkeinHash.BlockDecrypts | src/hash/skein.cpp:553-556 | full block i can be got back under the position (i + 1) times its size, with the first flag only if i is 0 |
| SkeinHash.LastDecrypts | src/hash/skein.cpp:580-584 | the held-back bytes and zeros can be got back under the position of the message length and the tweak whose final bit is set, whose first bit is kept only by a message of at most one block, and whose other bits are the chain's |
| SkeinHash.PadBuffer | src/hash/skein.cpp:581-582 | the buffer keeps its bytes and is filled with zeros to a whole block |
| SkeinHash.FinalPad | src/hash/skein.cpp:652-664 | without an output stage the hash is the finished chaining words as bytes |
| SkeinHash.RunCounter | src/hash/skein.cpp:594-596 | one counter block leaves output block i of the given key words, the rest of the buffer still zero |
| SkeinHash.StoreCounter | src/hash/skein.cpp:594-594 | the first eight bytes of the buffer become the counter, the others stay |
| SkeinHash.OutputPart | src/hash/skein.cpp:594-602 | one turn emits the bytes of output block i, cut to n, and restores the key words |
| SkeinHash.CounterMode | src/hash/skein.cpp:587-603 | every output byte j comes from output block j div B, each made from the same key words |
| SkeinHash.OutputLoads | src/hash/skein.cpp:594-602 | every whole run of output bytes reads back, word by word, as its output block |
| SkeinHash.Final | src/hash/skein.cpp:574-605 | the hash has (bits+7) div 8 bytes, each the byte of independent counter-mode blocks of the finished message |
| SkeinHash.Init | src/hash/skein.cpp:424-463 | initialising from the configuration block leaves the context of the empty message |
| SkeinHash.ConfigLayout | src/hash/skein.cpp:447-450 | the configuration block is the bytes SHA3, version 1, the output length, and zeros |
| SkeinHash.ConfigDecrypts | src/hash/skein.cpp:445-463 | a message starts at position 0 with the second tweak word 0x7000000000000000 and the chaining words from which the configuration block can be got back under zero words, position 32 and the tweak word 0xC400000000000000 |
| SkeinHash.OutputDecrypts | src/hash/skein.cpp:594-596 | from output block i the words i, 0, 0, ... can be got back under the finished chaining words, position 8 and the tweak word 0xFF00000000000000 |
| SkeinHash.HashParts | src/hash/skein.cpp:526-605 | initialise, update once per part, finish: the hash is a function of the joined parts |
| Bits.BitOfXor | src/hash/Keccak-compact64.cpp:194-206 | exclusive-or works bit by bit |
| Bits.BitOfAnd | src/hash/Keccak-compact64.cpp:217-236 | conjunction works bit by bit |
| Bits.BitOfNot | src/hash/Keccak-compact64.cpp:217-236 | complement turns over each of the 64 bits |
| Bits.BitOfRotL | src/hash/Keccak-compact64.cpp:47-47 | rotation by n moves bit i-n mod 64 to place i |
| Bits.BitOfQuotient | src/hash/KeccakHash.cpp:54-54 | a shift down by m places moves bit i+m to place i |
| Bits.BitOfRemainder | src/hash/KeccakHash.cpp:48-52 | the low m bits of a number are its remainder modulo 2^m |
| Bits.XorRemainder | src/hash/Keccak-compact64.cpp:83-96 | cutting an exclusive-or to k bits is the exclusive-or of the cut operands |
| Bits.SameBits | src/hash/KeccakHash.cpp:48-52 | numbers below 2^k with the same k low bits are equal |
| KeccakSponge.AbsorbConcat | src/hash/KeccakSponge.cpp:40-100 | absorbing two strings one after the other is absorbing their concatenation |
| KeccakSponge.AbsorbRun | src/hash/KeccakSponge.cpp:83-96 | bytes inside one block are only exclusive-ored in, and the byte that completes the block triggers one permutation |
| KeccakSponge.XorAtTwice | src/hash/KeccakSponge.cpp:83-96 | exclusive-oring the same bytes in twice restores the state |
| KeccakSponge.ChunkExact | src/hash/KeccakSponge.cpp:70-72 | the 32-bit chunk size is the intended one if and only if ChunkFits holds |
| KeccakSponge.ChunkFails | src/hash/KeccakSponge.cpp:70-76 | otherwise the chunk runs past the block, or the next chunk takes nothing and the loop never ends |
| KeccakSponge.ChunkOverruns | src/hash/KeccakSponge.cpp:70-72 | with 2^32 - 1 bytes left at place 5 of a block of 136 the chunk is all of them |
| KeccakSponge.Instance.constructor | src/hash/KeccakSponge.h:39-48 | a new sponge owns 200 state bytes |
| KeccakSponge.Instance.Initialize | src/hash/KeccakSponge.cpp:23-36 | parameters are accepted exactly when they add up to 1600 and the rate is positive and whole bytes; then the state is zero and absorbing |
| KeccakSponge.Instance.XorBytesInLane | src/hash/Keccak-compact64.cpp:129-142 | bytes of one lane are exclusive-ored in at their offset, the rest of the state stays |
| KeccakSponge.Instance.XorLanes | src/hash/Keccak-compact64.cpp:146-169 | whole lanes are exclusive-ored in from the start of the state |
| KeccakSponge.Instance.Permute | src/hash/KeccakSponge.cpp:94-94 | the state becomes its image under the permutation |
| KeccakSponge.Instance.AbsorbChunk | src/hash/KeccakSponge.cpp:76-92 | whole lanes and then partial lanes together exclusive-or the chunk in at the current place |
| KeccakSponge.Instance.AbsorbBlock | src/hash/KeccakSponge.cpp:55-65 | the fast lane on one block equals absorbing its bytes one at a time |
| KeccakSponge.Instance.Absorb | src/hash/KeccakSponge.cpp:40-100 | the mixed fast and normal loop ends and leaves the state and place of the byte-at-a-time sponge; 1 and no change once squeezing has begun |
| KeccakSponge.Instance.ComplementBit | src/hash/Keccak-compact64.cpp:173-177 | flipping the top bit of a byte is exclusive-or with 0x80 there |
| KeccakSponge.Instance.AbsorbLastFewBits | src/hash/KeccakSponge.cpp:104-141 | the delimited bits and the padding, extra permutation included, are the bytes of PadTail absorbed one at a time; a zero delimiter or squeezing is refused without change |
| KeccakSponge.PadAbsorbed | src/hash/KeccakSponge.cpp:118-136 | absorbing the padding bytes is one or two exclusive-ors with at most one permutation between them, then a permutation |
| KeccakSponge.SqueezeTurn | src/hash/KeccakSponge.cpp:175-178 | a used-up block lags behind by exactly one permutation, any other place by none |
| KeccakSponge.SqueezeRun | src/hash/KeccakSponge.cpp:183-204 | n bytes of the current block are output bytes t to t+n-1 and advance the place by n |
| KeccakSponge.SamePlace | src/hash/KeccakSponge.cpp:192-204 | bytes within one block share the block number and count up the offset |
| KeccakSponge.JoinOutput | src/hash/KeccakSponge.cpp:145-208 | two successive runs of output are one longer run, so the split of calls does not matter |
| KeccakSponge.Instance.SqueezeChunk | src/hash/KeccakSponge.cpp:182-204 | lanes and partial lanes together deliver the next n state bytes |
| KeccakSponge.Instance.SqueezeBlock | src/hash/KeccakSponge.cpp:160-170 | one fast-lane turn permutes and delivers the first rate bytes |
| KeccakSponge.Instance.SqueezeBlocks | src/hash/KeccakSponge.cpp:158-172 | the fast lane delivers whole blocks until less than one is left, none skipped or repeated |
| KeccakSponge.Instance.SqueezePart | src/hash/KeccakSponge.cpp:173-205 | the normal lane catches up on the permutation and delivers what is left of one block |
| KeccakSponge.Instance.SqueezeMore | src/hash/KeccakSponge.cpp:155-207 | output byte k is the permutation applied k div r times, byte k mod r, in any split of calls |
| KeccakSponge.Instance.Squeeze | src/hash/KeccakSponge.cpp:145-208 | the same for a first call, which closes the input with an empty last byte |
| KeccakHash.StateOfBits | src/hash/KeccakSponge.cpp:23-36 | a state is determined by its 1600 bits |
| KeccakHash.AbsorbBytesIsAbsorbBlocks | src/hash/KeccakSponge.cpp:40-100 | absorbing n whole blocks byte by byte is step 6 of the sponge algorithm (section 4 of FIPS 202) on their bits |
| KeccakHash.DelimiterUnique | src/hash/KeccakSponge.cpp:118-123 | the delimiter of a suffix byte is the one place between a power of two and its double |
| KeccakHash.TailBits | src/hash/KeccakSponge.cpp:118-134 | bit by bit, the padding bytes are the suffix, a 1, zeros, and a last 1 |
| KeccakHash.PaddedBits | src/hash/KeccakSponge.cpp:104-141 | message bits, suffix and pad10*1 (section 5.1 of FIPS 202) are exactly the bits of the absorbed bytes, in whole blocks |
| KeccakHash.AbsorbIndex | src/hash/KeccakSponge.cpp:90-96 | the place in the block is the number of bytes absorbed modulo the rate |
| KeccakHash.PaddedState | src/hash/KeccakSponge.cpp:104-141 | absorbing bytes and a delimited last byte leaves the state in which SPONGE[f, pad10*1, rate] starts to squeeze |
| KeccakHash.PadShape | src/hash/KeccakSponge.cpp:104-141 | the padding starts and ends with two different 1s with zeros between, fills the message to whole blocks, and is shorter than a block and two bits (section 5.1 of FIPS 202) |
| KeccakHash.OutputIsSqueezed | src/hash/KeccakSponge.cpp:145-208 | n blocks of output bytes are, bit by bit, what n turns of the loop in steps 8 to 10 of the sponge algorithm yield: the first rate bits, then those of the permuted string, and so on |
| KeccakHash.CutOutput | src/hash/KeccakHash.cpp:63-70 | output cut to m bytes is that bit string cut to 8m bits, from every 1600-bit string |
| KeccakHash.MergedSuffix | src/hash/KeccakHash.cpp:43-55 | merging the last data bits with the suffix byte loses no bit, whether or not the sum spills into a second byte |
| KeccakHash.SpilledSuffix | src/hash/KeccakHash.cpp:50-55 | a sum of more than eight bits is one absorbed byte and a shorter suffix |
| KeccakHash.WholeBytes | src/hash/KeccakHash.cpp:36-39 | message bits in whole bytes and a suffix below eight bits split in one way only |
| KeccakHash.DataBits | src/hash/KeccakHash.cpp:41-44 | whole bytes and the last few bits are the first databitlen bits of the data |
| KeccakHash.Hash.constructor | src/hash/KeccakHash.h:23-27 | a new hash owns a new sponge over the given permutation |
| KeccakHash.Hash.Initialize | src/hash/KeccakHash.cpp:20-32 | accepted exactly for a nonzero suffix and valid sponge parameters; then the message is empty and the suffix is that of the byte |
| KeccakHash.Hash.AbsorbWhole | src/hash/KeccakHash.cpp:38-41 | whole bytes are appended to what was absorbed |
| KeccakHash.Hash.MergeLast | src/hash/KeccakHash.cpp:42-56 | the last k bits join the message in front of the suffix, absorbing one more byte if they spill |
| KeccakHash.Hash.Update | src/hash/KeccakHash.cpp:36-59 | the message grows by exactly databitlen bits and the suffix stays |
| KeccakHash.Hash.Final | src/hash/KeccakHash.cpp:63-70 | the output is the squeezed run of SPONGE[f, pad10*1, rate] on message and suffix, of the fixed length |
| KeccakF.TablesFollowWalk | src/hash/Keccak-compact64.cpp:52-60 | the lane table is the walk (x,y) to (y,2x+3y), and the rotation table its triangular numbers, equal to the offsets of section 3.2.2 of FIPS 202 |
| KeccakF.ThetaAgrees | src/hash/Keccak-compact64.cpp:194-206 | lane-wise theta is theta of section 3.2.1 on every state |
| KeccakF.RhoPiAgrees | src/hash/Keccak-compact64.cpp:208-215 | lane-wise rho and pi together are pi after rho (sections 3.2.2 and 3.2.3) on every state |
| KeccakF.ChiAgrees | src/hash/Keccak-compact64.cpp:217-236 | lane-wise chi is chi of section 3.2.4 on every state |
| KeccakF.IotaAgrees | src/hash/Keccak-compact64.cpp:239-239 | exclusive-or of the round constant into lane 0 is iota of section 3.2.5 |
| KeccakF.ThetaByBits | src/hash/Keccak-compact64.cpp:194-206 | a bit of theta is the parity of eleven bits: itself, column x-1 at z, and column x+1 at z-1 |
| KeccakF.ThetaSpreads | src/hash/Keccak-compact64.cpp:194-206 | turning over one bit of any state turns over exactly eleven bits of theta, at the places named |
| KeccakF.RoundByBits | src/hash/Keccak-compact64.cpp:190-240 | every bit of a round as one formula over the bits it starts from: three parities of eleven bits at the places that pi and rho move from, joined by the one nonlinear step, and the round bit in lane 0 |
| KeccakF.RcRecurrence | src/hash/Keccak-compact64.cpp:83-96 | the round bits satisfy rc(t+8) = rc(t+6) xor rc(t+5) xor rc(t+4) xor rc(t), the recurrence of the polynomial of section 3.2.5 |
| KeccakF.RcStarts | src/hash/Keccak-compact64.cpp:75-81 | they start with a one and seven zeros |
| KeccakF.StepResult | src/hash/Keccak-compact64.cpp:208-215 | the lane a walk step ends in receives, rotated by the table, the lane the step starts from |
| KeccakF.RhoPiInPlace | src/hash/Keccak-compact64.cpp:208-215 | carrying one lane round the 24-lane cycle moves and rotates all lanes as if at once |
| KeccakF.ThetaInPlace | src/hash/Keccak-compact64.cpp:194-206 | the in-place column loop computes lane-wise theta of the old state |
| KeccakF.ChiInPlace | src/hash/Keccak-compact64.cpp:217-236 | the in-place row loop with a five-lane copy computes lane-wise chi of the old state |
| KeccakF.UntruncatedShift | src/hash/Keccak-compact64.cpp:83-96 | a register that keeps the bits the standard drops steps, in its low byte, as the standard's does |
| KeccakF.ShiftByBits | src/hash/Keccak-compact64.cpp:87-91 | the register step bit by bit: every bit moves up and the bit shifted out is added to places 0, 4, 5 and 6 |
| KeccakF.ShiftRegister | src/hash/Keccak-compact64.cpp:86-91 | one step reports the lowest bit and leaves the stepped register |
| KeccakF.GetNextRoundConstant | src/hash/Keccak-compact64.cpp:75-98 | the constant of a round has bit 2^j - 1 set exactly when rc(j + 7 round) is, no other bit, and the register is seven steps on |
| KeccakF.RoundInPlace | src/hash/Keccak-compact64.cpp:190-240 | one in-place round is Rnd of section 3.3 on every state |
| KeccakF.StatePermute | src/hash/Keccak-compact64.cpp:181-242 | 24 in-place rounds are Keccak-f[1600] on every state |
| KeccakBytes.LanesAgree | src/hash/Keccak-compact64.cpp:129-142 | the bits of the state bytes are the bits of their 25 little-endian lanes at the standard's places |
| KeccakBytes.AgreesIsEqual | src/hash/Keccak-compact64.cpp:181-242 | lanes determine the bit state they hold |
| KeccakBytes.PermuteBytes | src/hash/Keccak-compact64.cpp:181-242 | the in-place lane code applied to state bytes is Keccak-f[1600] on their bits |
| PrimeCluster.Eratosthenes | src/prime.cpp:24-47 | up to size 2^31 the list holds exactly the primes below the size, in ascending order |
| PrimeCluster.LargerSievesRunOn | src/prime.cpp:33-35 | above size 2^31 the marking loop of index 2^31 never ends |
| PrimeCluster.Unmarked | src/prime.cpp:38-41 | collecting the unmarked indices yields exactly the primes, ascending |
| PrimeCluster.InitializePrimes | src/prime.cpp:50-54 | the sieve is the list of primes below 80 |
| PrimeCluster.DivisorCheck | src/prime.cpp:106-114 | true exactly for numbers no sieve prime divides |
| PrimeCluster.GmpPrimeTest | src/prime.cpp:151-183 | true exactly for numbers that no sieve prime divides and base 2 accepts |
| PrimeCluster.PrimeCheck | src/prime.cpp:246-265 | true exactly when the small divisors asked for, Miller-Rabin and every Fermat base accept |
| PrimeCluster.EndUnique | src/prime.cpp:203-218 | a cluster has one end |
| PrimeCluster.RunStops | src/prime.cpp:203-218 | any run of six failing candidates gives the cluster an end no later than it |
| PrimeCluster.ClusterShape | src/prime.cpp:203-218 | the last member passes unless it is the start, and every earlier position has a member at most twelve above it inside the cluster |
| PrimeCluster.NextMember | src/prime.cpp:203-218 | while the cluster has not ended, the next member is at most twelve above, and none between passes |
| PrimeCluster.FractionRange | src/prime.cpp:222-224 | the fraction is zero or between 10^6/2^24 and 1, whatever the rated number |
| PrimeCluster.FractionIs | src/prime.cpp:222-241 | the scaled value v of a number c lies within one step below 2^24 (c - r) / c for the base-2 Fermat remainder r, and the fraction times v is a million when v is at least a million, else the fraction is 0 |
| PrimeCluster.MembersCount | src/prime.cpp:129-139 | the members counted up to position k are the positions from 1 to k that pass |
| PrimeCluster.RatingRange | src/prime.cpp:185-231 | a rating lies between the cluster size and the cluster size plus one |
| PrimeCluster.ScanStep | src/prime.cpp:129-139 | looking at one more candidate keeps the last member and the count right |
| PrimeCluster.ScanEnds | src/prime.cpp:129-139 | a scan that has looked six candidates past its last member has found the cluster's end |
| PrimeCluster.GapCount | src/prime.cpp:203-218 | for any test whatever the gap counter counts the members of the cluster and leaves off twelve past the last one |
| PrimeCluster.WindowCount | src/prime.cpp:123-139 | for any test whatever the window scan counts the same members and leaves off fourteen past the last one |
| PrimeCluster.PowerPeriod | src/prime.cpp:270-278 | powers of 2 modulo q repeat with the order of 2 |
| PrimeCluster.FermatFails | src/prime.cpp:270-278 | a multiple of q fails base 2 unless the order of 2 modulo q divides one less than it |
| PrimeCluster.FermatNeedsOdd | src/prime.cpp:270-278 | a number that base 2 accepts is odd |
| PrimeCluster.SieveRun | src/prime.cpp:151-160 | above a number congruent to 113 modulo 2310, six odd numbers are each divisible by 3, 5, 7 or 11 and fail the sieve |
| PrimeCluster.SieveStops | src/prime.cpp:203-218 | from every odd start the sieve scan stops, with its last member at most 2308 above the start |
| PrimeCluster.FermatRun | src/prime.cpp:260-262 | above a number congruent to 26603 modulo 6126120, six odd numbers all fail base 2 whatever their other factors |
| PrimeCluster.FullStops | src/prime.cpp:86-93 | with at least one check the scan stops from every odd start, whatever Miller-Rabin answers |
| PrimeCluster.GmpVerification | src/prime.cpp:185-231 | terminates on every input; zero for a start that fails, else the rating of its cluster |
| PrimeCluster.CheckPrimeDifficulty | src/prime.cpp:118-148 | terminates on every input; zero for a start base 2 rejects, else the rating of the same cluster |
| PrimeCluster.VerifyPrimeDifficulty | src/prime.cpp:75-102 | zero for a start that fails, else the rating of its cluster under the full test |
| PrimeCluster.MeasurementsAgree | src/prime.cpp:118-231 | gap counter and window scan give equal ratings if and only if no sieve prime divides the start or base 2 rejects it |
| PrimeCluster.ThreeIsMeasuredTwice | src/prime.cpp:118-231 | 3 is a start on which they differ |
| PrimeCluster.RatedNumberCanPass | src/prime.cpp:222-222 | after the one-member cluster 113 the rated number is 127, which base 2 accepts |
| PrimeCluster.RatingOf113 | src/prime.cpp:185-231 | 113 passes, and its rating is 1 + 1000000/16645111 |
| Bytes.UintRoundTrip | src/util.h:106-125 | four bytes written anywhere in a stream read back as the number |
| Bytes.BytesRoundTrip | src/util.h:106-125 | four bytes are the bytes of the number they encode |
| Bytes.Uint64RoundTrip | src/util.h:128-143 | eight bytes written anywhere in a stream, as two four-byte halves, read back as the number |
| Bytes.Bytes64RoundTrip | src/util.h:128-143 | eight bytes are the bytes of the number they encode |
| Bytes.HighByteFirst | src/util.h:106-114 | by weight the first of four bytes is the highest |
| Bytes.LowHalfFirst | src/util.h:128-140 | of eight bytes the four that come first are the low half |
| Database.FileOfSnoc | src/LLD/database.h:64-70 | appending one framed record appends its frame to the file |
| Database.TwoRecords | src/LLD/database.h:64-70 | the records 7 and 8, 9 are the file 0 0 0 1 7 0 0 0 2 8 9 |
| Database.LoadedImages | src/LLD/database.h:76-117 | reading the images of distinct keys yields each record's reread form under its key |
| Database.WriteThenRead | src/LLD/database.h:59-117 | writing every record and reading the file restores every record, given that each rereads under the key it was stored under |
| Database.NextRecord | src/LLD/database.h:99-114 | at every position of a well-formed file the next length and data are those of the next record, and the rest is the rest of the file |
| Database.ListKeys | src/LLD/database.h:28-37 | the keys of a map, each once |
| Database.Database.constructor | src/LLD/database.h:25-25 | a new store holds what its file holds, or nothing |
| Database.Database.GetKeys | src/LLD/database.h:28-37 | exactly the keys on file, each once |
| Database.Database.GetRecord | src/LLD/database.h:121-126 | the record under the key; a missing key gains a blank record |
| Database.Database.WriteToDisk | src/LLD/database.h:59-72 | the file is the framed images of all records, each once |
| Database.Database.ReadIntoMemory | src/LLD/database.h:76-117 | memory becomes what the file holds, or empty without a file |
| Coinbase.TotalRemove | src/coinbase.h:34-34 | a map's total is one entry plus the total of the others, whichever entry is taken |
| Coinbase.TotalUpdate | src/coinbase.h:22-29 | storing an entry changes the total by the difference of that entry |
| Coinbase.TotalSum | src/coinbase.h:34-34 | totals of entrywise sums add up |
| Coinbase.Coinbase.constructor | src/coinbase.h:42-42 | a new transaction is empty |
| Coinbase.Coinbase.AddOutput | src/coinbase.h:22-29 | the address gains the value, and so does the value so far |
| Coinbase.Coinbase.AddTransaction | src/coinbase.h:48-55 | state and returned int are those of an attempt: added when it fits, untouched and negative when it does not |
| Coinbase.Coinbase.Reset | src/coinbase.h:133-138 | no outputs, no value, the new maximum, the same fee |
| Coinbase.AttemptFits | src/coinbase.h:48-55 | an attempt that fits keeps outputs and value in step, whatever becomes of the int it returns |
| Coinbase.AttemptExact | src/coinbase.h:48-55 | the int returned is what is left or lacking if and only if that difference is an int |
| Coinbase.AttemptTooLarge | src/coinbase.h:48-52 | an attempt that does not fit changes nothing |
| Filling.FaithfulBelow | src/core.cpp:649-657 | below a maximum of 2^31 narrowing is harmless if and only if no account that straddles the maximum is too large by more than 2^31 |
| Filling.FilledExactly | src/core.cpp:642-659 | at any maximum every account is paid the part of its balance below the maximum, balances laid end to end, if and only if narrowing never misleads the filling |
| Filling.FilledPays | src/core.cpp:642-659 | a faithful filling pays each account as intended |
| Filling.UnfaithfulMisses | src/core.cpp:651-657 | a filling that is not faithful leaves some account paid otherwise |
| Filling.FilledTotal | src/core.cpp:642-659 | a faithful filling reaches the smaller of the maximum and all balances together, outputs and value in step |
| Filling.FilledSound | src/core.cpp:642-659 | below a maximum of 2^31 outputs and value stay in step and within the maximum, whatever the balances |
| Filling.FilledOthers | src/core.cpp:642-659 | no address outside the order is touched |
| Filling.FullStays | src/core.cpp:649-657 | once the maximum is met nothing more is taken |
| Filling.HeadTooLarge | src/core.cpp:651-657 | an account too large for what is left is paid in part when too large by at most 2^31, and otherwise not at all |
| Filling.SecondAttempt | src/core.cpp:654-654 | the second attempt adds nothing exactly when its value is zero or does not fit, before or after the 64-bit wrap |
| Filling.CompletedFills | src/core.cpp:662-666 | what is left over, when it is an int, goes to the finder, so outputs meet the maximum exactly and no other address changes |
| Filling.CompletedExactly | src/core.cpp:662-666 | the transaction is completed if and only if what is left over is an int |
| Ledger.SettledOnce | src/core.cpp:283-326 | a record under its own key that no other record claims is settled exactly once |
| Ledger.AfterFeeIs | src/core.cpp:257-257 | a hundred times what is left after the fee is the reward times the percentage left, up to less than one unit |
| Ledger.BonusIs | src/core.cpp:260-267 | a hundred times the finder's bonus is twice the reward, up to less than one unit, and nothing without a finder |
| Ledger.SettledPays | src/core.cpp:309-312 | the running total is the sum of all floors |
| Ledger.SettledCredits | src/core.cpp:303-316 | an account is credited on record exactly when it has shares, with its floor |
| Ledger.EarnedIsFloor | src/core.cpp:309-309 | a credit is the floor of shares times pool over weight, and at most the pool |
| Ledger.FloorsWithin | src/core.cpp:309-312 | floors together stay within the pool's part of the shares |
| Ledger.EarnedWithinPool | src/core.cpp:309-329 | all credits of a round together are at most the pool, so the remainder is never negative |
| Ledger.SumOverTotal | src/core.cpp:177-179 | a sum over the listed keys is the map's total, whatever the order |
| LedgerLaws.Settled | src/core.cpp:244-326 | before the remainder, each account on file has its balance plus bonus and credit, less its payout clamped to what it held |
| LedgerLaws.SettledTotals | src/core.cpp:244-326 | over all accounts on file: balances after plus payouts taken equal balances before plus bonus plus all credits |
| LedgerLaws.ConservedOnFile | src/core.cpp:244-338 | with the finder on file, or none, total balance changes by exactly the reward after the fee minus the clamped payouts |
| LedgerLaws.UpdateConserves | src/core.cpp:244-338 | value is conserved if and only if the finder is on file, or there is none, or nothing of bonus and remainder is lost |
| LedgerLaws.StrayOutcome | src/core.cpp:263-265 | with the finder missing, all balances: accounts on file are settled, the finder's record is blank, and the nameless record holds what is salvaged |
| LedgerLaws.ClearingKeepsBalances | src/core.cpp:158-169 | clearing zeroes the shares of every account and changes nothing else |
| LedgerLaws.ClearedStrayBalances | src/core.cpp:158-169 | with the finder missing, clearing wipes the nameless balance |
| LedgerLaws.NewRoundConserves | src/core.cpp:362-383 | a whole new round conserves value if and only if the finder is on file, or there is none, or bonus and remainder are both zero |
| LedgerLaws.RewardIsLost | src/core.cpp:260-265 | with no account on file and a finder, a reward of 100 is not conserved, neither by the update nor by the whole round |
| RefundLaws.RefundedAccount | src/core.cpp:206-231 | a refund takes each credit back, clamped at zero, and returns each output |
| RefundLaws.RefundTotal | src/core.cpp:206-231 | all balances after a refund, plus what was really taken back, are all balances before, plus all outputs returned |
| RefundLaws.OutcomeAccount | src/core.cpp:244-338 | after a round each account is settled, and the finder's has the remainder on top |
| RefundLaws.OutcomeCredit | src/core.cpp:267-316 | what is on record to be taken back is bonus and credit, without the remainder |
| RefundLaws.RoundInNumbers | src/core.cpp:244-338 | a reward of 1000000 at two percent, two miners with two shares and one and payouts of 60 and 6 on balances of 100 and 5: the balances and credits afterwards as numbers |
| RefundLaws.RoundTripAccount | src/core.cpp:186-338 | the balance of every account after a round and its refund, as arithmetic of balance, payout, bonus, credit and remainder |
| RefundLaws.RefundRestores | src/core.cpp:186-240 | an account other than the finder's is restored if and only if its payout did not exceed its balance |
| RefundLaws.RefundLeavesRemainder | src/core.cpp:329-333 | the finder keeps exactly the unrecorded remainder if and only if its payout was at most its balance plus the smaller of bonus and remainder; it is restored if and only if that remainder is zero and its balance covered the payout |
| RefundLaws.OverpaidIsNotRestored | src/core.cpp:288-293 | an account of 5 with a payout of 6 is not restored |
| RefundLaws.SkippedAccount | src/core.cpp:191-192 | where the refund is skipped, an account is as before the round if and only if what it was credited is what its payout took |
| RefundLaws.SkippedRound | src/core.cpp:191-192 | without payouts the accounts are as before the round if and only if there was no reward after the fee |
| Rewards.RewardIsPaidOut | src/core.cpp:635-666 | below a maximum of 2^31 outputs plus fee equal the reward exactly, however large the balances, and only listed accounts and the finder are paid |
| Rewards.PoolFeeIs | src/core.cpp:638-638 | a hundred times the fee is the reward times the percentage, up to less than one unit |
| Rewards.FeeSplit | src/core.cpp:257-257 | what a round shares out and what the payout keeps back are together the reward if a hundred divides reward times percentage, else one less |
| Rewards.ResetMaximum | src/core.cpp:638-639 | a hundred times the maximum is the reward times the percentage left, rounded up to less than one unit |
| Rewards.RewardTerms | src/core.cpp:630-677 | so are fee and maximum of the filled and completed transaction, which together are the reward |
| Rewards.FaithfulReward | src/core.cpp:635-666 | at any maximum a faithful filling and the completion pay out exactly the reward if and only if what is left for the finder is an int |
| Rewards.PaymentIs | src/core.cpp:642-666 | accounts paid in full are a prefix of the order, at most one more is paid in part, the finder takes the remainder, and only it may get more than its balance |
| Rewards.WideRewardIsNotPaidOut | src/core.cpp:651-657 | at a maximum of 2^31 + 1 and a balance of 1 the filling stops and the transaction stays unfilled |
| Rewards.OversizedBalanceIsSkipped | src/core.cpp:651-657 | at a maximum of 1000 an account of 2^32 is passed over and the next one paid |
| Pool.OutcomeKeeps | src/core.cpp:244-350 | a round keeps every record under its own key, adds no account, and credits only accounts on file |
| Pool.NewRoundBooks | src/core.cpp:362-383 | the books stay sound over a new round |
| RefundLaws.RefundKeeps | src/core.cpp:186-240 | a refund keeps the accounts and their keys |
| Pool.RefundOrderly | src/core.cpp:186-240 | a refund keeps the books in order, whether or not the finder is on file |
| Pool.Pool.constructor | src/core.cpp:60-84 | the pool starts in round 1 with an empty payout transaction; over stores in order it is in order, the finder on file or not |
| Pool.Pool.TotalWeight | src/core.cpp:173-182 | the sum of all shares modulo 2^64, leaving the records alone |
| Pool.Pool.WeightOf | src/core.cpp:177-179 | the same over a listing of keys |
| Pool.Pool.CreditAccount | src/core.cpp:331-333 | look up, add, store: the record on file or a blank one |
| Pool.Pool.CreditFinder | src/core.cpp:260-274 | accounts and credits are those of the round's opening |
| Pool.Pool.SettleAccount | src/core.cpp:285-325 | one turn of the settling loop |
| Pool.Pool.SettleAccounts | src/core.cpp:282-326 | the whole settling loop over the listed keys |
| Pool.Pool.GiveRemainder | src/core.cpp:329-333 | a positive remainder is credited to the finder |
| Pool.Pool.SettleRound | src/core.cpp:260-333 | accounts and credits are the round's outcome |
| Pool.Pool.UpdateBalances | src/core.cpp:244-350 | accounts become the round's outcome, and the block is recorded with value, payout, credits and round |
| Pool.Pool.ClearAccount | src/core.cpp:163-165 | one account's shares are zeroed |
| Pool.Pool.ClearEach | src/core.cpp:161-166 | the clearing loop over the listed keys |
| Pool.Pool.ClearShares | src/core.cpp:158-169 | all shares are cleared over some listing of the keys |
| Pool.Pool.SettleAndClear | src/core.cpp:372-373 | the stores' part of a new round: the round's outcome with all shares cleared, the block recorded, the books sound |
| Pool.Pool.NewRound | src/core.cpp:362-383 | balances updated, then shares cleared, the round counted up, and the books stay sound |
| Pool.Pool.RefundPayouts | src/core.cpp:186-240 | a block of value zero changes no account; any other is refunded and its value zeroed; the books stay in order |
| Pool.Pool.RemoveCredit | src/core.cpp:208-215 | one credit is taken back, clamped at zero |
| Pool.Pool.RemoveCredits | src/core.cpp:206-218 | all credits of the block are taken back |
| Pool.Pool.ReturnOutputs | src/core.cpp:222-231 | all outputs of the block are returned |
| Pool.Pool.RefundTwice | src/core.cpp:191-192 | a second refund of the same block changes nothing |
| Pool.Pool.BlockReward | src/core.cpp:630-677 | after the first round, with a payout pending, the transaction is filled and completed; otherwise it is left alone and no longer pending; fee and maximum then are the two parts of the reward in hundredths |
| Pool.Pool.PayAccount | src/core.cpp:646-658 | one account's payout, and whether the filling stops |
| Pool.Pool.Fill | src/core.cpp:642-659 | the filling loop over the order |
| Pool.Pool.Complete | src/core.cpp:662-666 | the finder takes the remainder of an incomplete transaction |
| Pool.Pool.Login | src/LLP/pool.cpp:198-201 | a new address gains a blank record under itself, a known one stays, and the books stay in order with or without a finder on file |
| Pool.Pool.Share | src/LLP/pool.cpp:360-363 | a share adds its weight to the record found, stored under that record's own key; for a registered miner the books stay in order |
| Pool.Pool.SubmitBlock | src/LLP/daemon.cpp:273-287 | a block at the current height makes its miner the finder; from a registered miner it puts the finder on file |
| Pool.Pool.OrphanedRound | src/core.cpp:186-350 | a round refunded at once restores every account but the finder's exactly when its balance covered its payout, and leaves the finder the remainder under the exact condition |
| Pool.Pool.RoundAndRefund | src/core.cpp:186-252 | a refund right after a round is skipped if and only if maximum and fee of the payout add up to zero, and otherwise undoes credits and payouts |
| Pool.Pool.OrphanedFirstRound | src/core.cpp:191-192 | a round without a payout transaction is not refunded: its accounts are as before if and only if there was no reward after the fee |
| Pool.RefundedRound | src/core.cpp:186-338 | the same on record maps |
| PoolRun.Handle | src/core.cpp:186-677 | the handlers are the steps of the state machine: the whole state after a request is that of its step |
| PoolRun.StepBooks | src/core.cpp:186-677 | every step keeps records under their own keys, the finder on file, and payouts and credits on accounts on file |
| PoolRun.RunBooks | src/core.cpp:186-677 | so does any sequence of steps |
| PoolRun.StepMoney | src/core.cpp:186-383 | a step changes all balances together by the reward after the fee less payouts taken, by payouts returned less credits taken back, or not at all |
| PoolRun.RunConserves | src/core.cpp:186-383 | over any sequence of steps all balances together change by exactly the rewards after fees, the payouts taken and returned, and the credits taken back |
| PoolRun.ChangesWithin | src/core.cpp:244-338 | over any sequence of steps a hundred times what rounds give is their rewards times the percentage the miners keep, up to less than one unit a round |
| PoolRun.RunGives | src/core.cpp:186-383 | over any sequence of steps what all balances gain beyond the payouts and credits moved is, a hundredfold, the rewards of all rounds times the percentage the miners keep, up to less than one unit a round |
| PoolRun.FirstBlock | src/LLP/daemon.cpp:280-285 | the first current block of a registered miner puts the finder on file |
| Records.EntriesRoundTrip | src/coinbase.h:80-128 | a written list of entries is read back entry by entry, on top of what was there, with the running sum |
| Records.PayoutRoundTrip | src/coinbase.h:70-129 | a payout comes back with the same outputs and fee, given at most 255 entries and 255-byte addresses |
| Records.CreditsRoundTrip | src/coinbase.h:177-223 | a credit list comes back unchanged under the same limits |
| Records.SerializeEntries | src/coinbase.h:80-92 | the bytes are the entries in the order of the keys, behind what was there |
| Records.SerializePayout | src/coinbase.h:70-95 | count, fee, then the entries |
| Records.SerializeCredits | src/coinbase.h:177-199 | count, then the entries |
| Records.DeserializePayout | src/coinbase.h:99-129 | the transaction becomes the payout read from the stream; outputs already there stay unless named again |
| Records.AccountRoundTrip | src/LLD/record.h:28-51 | every account, whatever its key, is read back unchanged |
| Records.AccountLayout | src/LLD/record.h:28-51 | balance at place 0, shares at 8, blocks found at 16, address from 20 on |
| Records.ListsInBytes | src/coinbase.h:70-95 | the bytes of one payout and of one credit |
| Records.HashRoundTrip | src/hash/uint1024.h:332-359 | the bytes of a hash read back as the hash |
| Records.HashLayout | src/hash/uint1024.h:332-348 | word i of a hash lies at place 4i |
| Records.AssembledParts | src/LLD/record.h:82-128 | value at place 0, payout length at 8, the payout from 12 on, then the credits, the round 132 places before the end and the hash in the last 128 |
| Records.GetBytes | src/hash/uint1024.h:332-348 | the bytes of the words in order, each high byte first |
| Records.BlockRoundTrip | src/LLD/record.h:82-128 | nested length-prefixed block records parse to the same key, value, round, fee, outputs and credits |
| Records.RereadValue | src/coinbase.h:102-127 | the value so far of a payout read back is its fee plus all its outputs |
| Records.BlockUnchanged | src/LLD/record.h:82-128 | a block comes back exactly as written if and only if its payout's maximum is its recorded value and its payout's value so far is fee plus outputs |
| Records.RoundBlockUnchanged | src/core.cpp:250-253 | a block a round records comes back exactly as written if and only if there was no fee and the value so far was that of the outputs |
| Records.BlocksRestored | src/LLD/database.h:59-117 | every block written is read back under its key, given that each was stored under its own key |
| Records.ReloadAccounts | src/LLD/database.h:59-117 | writing the accounts and reading them back changes no record, as long as the file length fits 32 bits |
| Records.ReloadBlocks | src/LLD/database.h:59-117 | writing the blocks and reading them back leaves every block in its reread form under its key |
| Records.FileLength | src/LLD/database.h:64-70 | the file is as long as all framed records together, in whatever order they are written |
| Packet.Connection.constructor | src/LLP/types.h:316-317 | a connection starts with no packet and nothing waiting |
| Packet.Connection.SetNull | src/LLP/types.h:227-233 | the packet being read is the null packet |
| Packet.Connection.ReadPacket | src/LLP/types.h:346-385 | one call takes header, length and data as far as they are there |
| Packet.ReceivedIs | src/LLP/types.h:346-385 | whatever part of a packet is in, one call uses further bytes in order, loses none, and completes the packet exactly when all its bytes are there |
| Packet.StepSend | src/LLP/types.h:341-341 | writing a well-formed packet keeps the invariant |
| Packet.StepArrive | src/LLP/types.h:350-350 | the arrival of any number of bytes keeps the invariant |
| Packet.StepRead | src/LLP/types.h:346-385 | a call keeps the invariant, and completes the packet exactly when all its bytes have arrived |
| Packet.StepTake | src/LLP/types.h:333-337 | handing over a complete packet and resetting keeps the invariant |
| Packet.RunKeeps | src/LLP/types.h:333-385 | every schedule keeps the invariant |
| Packet.Delivery | src/LLP/types.h:333-385 | under every schedule the packets handed over are a prefix of those written, and every byte is either handed over, in the packet being read, waiting, or in flight |
| Packet.CompletedExactly | src/LLP/types.h:241-267 | of all packets exactly the well-formed ones are completed by the reader, as written and at their last byte |
| Packet.DeliveredExactly | src/LLP/types.h:241-267 | a data packet that says how much it holds is completed if and only if it holds some; a request if and only if it claims no length, holds no data and is not the null packet |
| Packet.OnTheWire | src/LLP/types.h:241-267 | a data packet and a request in bytes, and what is complete on both sides of the header values 128 and 255 |
| Packet.EmptyDataPacketMisleads | src/LLP/types.h:241-245 | a data packet of length zero is not complete, and the next four bytes are taken as its length |
| Radix.ValueOfDigits | src/base58.h:41-50 | the digits of a number in any base have that value |
| Radix.DigitsOfValue | src/base58.h:79-95 | digits without a zero at the top are the digits of their value |
| BigNum.SetVch | src/bignum.h:383-396 | reversing the bytes behind a size makes the integer they encode |
| BigNum.SignedRoundTrip | src/bignum.h:383-408 | the signed bytes of every integer read back as that integer |
| BigNum.SignedOfValue | src/bignum.h:383-408 | bytes are the signed bytes of their integer if and only if they are minimal |
| BigNum.VchRoundTrip | src/bignum.h:383-408 | every integer survives the trip through its byte vector, sign included |
| BigNum.IntegerRoundTrip | src/bignum.h:383-408 | a byte vector survives the trip through its integer if and only if it is minimal |
| BigNum.SignByteIsDropped | src/bignum.h:383-408 | a single zero byte comes back as no byte |
| BigNum.SmallIntegers | src/bignum.h:398-408 | -1, 128, -300 and 0 as byte vectors, low byte first with the sign on top |
| BigNum.SetUint1024 | src/bignum.h:340-366 | the integer is the value of the 128 bytes, leading zeros skipped and a zero byte added under a top bit |
| BigNum.GetUint1024 | src/bignum.h:368-381 | the low 128 bytes of the magnitude, zero filled |
| Base58.AlphabetIs | src/base58.h:18-18 | the digit table is the 58-character alphabet |
| Base58.DecodeOfEncode | src/base58.h:21-113 | every byte string, leading zeros included, is decoded from its encoding |
| Base58.EncodeOfDecode | src/base58.h:21-113 | every text over the alphabet is the encoding of what it decodes to |
| Base58.BlanksAround | src/base58.h:76-90 | white space before and after the digits does not change what is decoded |
| Base58.AcceptedOnly | src/base58.h:76-95 | nothing but digits with white space around them is decoded |
| Base58.NextByte | src/base58.h:28-34 | one byte more multiplies the number by 256 and adds the byte |
| Base58.NextDigit | src/base58.h:84-100 | one digit more multiplies the number by 58 and adds the digit |
| Base58.ThreeBytes | src/base58.h:21-65 | the bytes 0, 1, 0 are the text 15R |
| Address.EncodeBase58 | src/base58.h:21-59 | the text made by the division loop is the encoding of the bytes |
| Address.NumberText | src/base58.h:41-50 | the division loop yields the digits of the number, lowest first |
| Address.StrChr | src/base58.h:82-82 | the position of a character in the alphabet, or its length |
| Address.SkipSpaces | src/base58.h:76-77 | the position of the first character that is not white space |
| Address.LeadingOnes | src/base58.h:104-107 | the leading ones of the text are those of its run of digits |
| Address.UnsignedVch | src/base58.h:97-102 | trimming the sign byte leaves exactly the bytes of the number |
| Address.DecodeBase58 | src/base58.h:69-113 | succeeds exactly on the texts that decode, with the bytes they decode to |
| Address.EncodeBase58Check | src/base58.h:126-133 | the text is the encoding of the bytes and their checksum |
| Address.DecodeBase58Check | src/base58.h:137-154 | succeeds exactly when the last four bytes are the checksum of the others |
| Address.CheckedMeans | src/base58.h:126-154 | a text is accepted as b if and only if it decodes to b with its checksum |
| Address.Base58Data.constructor | src/base58.h:177-181 | a new address is empty |
| Address.Base58Data.SetString | src/base58.h:204-220 | accepted exactly when the text passes the checksum with at least a version byte; otherwise the address is cleared |
| Address.Base58Data.ToString | src/base58.h:227-232 | the encoding of version byte, data and checksum |
| Address.Base58Data.Reread | src/base58.h:204-232 | an address written and read into another object is the same address, under any checksum |
| Address.TextIsAddress | src/base58.h:126-154 | the text of an address reads as that address |
| Address.AddressIsText | src/base58.h:126-154 | a text over the alphabet that reads as an address is that address's text |
| JsonText.AddEscChars | src/json/json_spirit_writer_template.h:63-91 | the loop yields the escaped string |
| JsonText.HexRoundTrip | src/json/json_spirit_writer_template.h:17-26 | a hexadecimal digit reads back as its value |
| JsonText.AppendEscChar | src/json/json_spirit_reader_template.h:85-120 | one escape adds its characters and stops at its last one |
| JsonText.SubstituteEscChars | src/json/json_spirit_reader_template.h:123-156 | the loop, copying runs without a backslash in one piece, yields the unescaped string |
| JsonText.EscapeRoundTrip | src/json/json_spirit_reader_template.h:85-170 | every string of bytes survives escape and unescape, whatever characters count as printable |
| JsonText.EscapesAre | src/json/json_spirit_writer_template.h:17-91 | the escapes of the seven characters that have a short one, of a printable character, and of two others |
| JsonValue.Generator.constructor | src/json/json_spirit_writer_template.h:108-114 | a generator starts with no output and no indentation |
| JsonValue.Generator.PutIndent | src/json/json_spirit_writer_template.h:202-210 | indentation of the current level is appended |
| JsonValue.Generator.PutString | src/json/json_spirit_writer_template.h:166-169 | the quoted, escaped string is appended |
| JsonValue.Generator.PutPair | src/json/json_spirit_writer_template.h:147-152 | name, colon and value are appended, and the level is restored |
| JsonValue.Generator.PutMember | src/json/json_spirit_writer_template.h:177-200 | a member on its line, with a comma when more follow |
| JsonValue.Generator.PutElement | src/json/json_spirit_writer_template.h:177-200 | an element on its line, with a comma when more follow |
| JsonValue.Generator.Output | src/json/json_spirit_writer_template.h:118-135 | the text of the value at the current level is appended, and the level is restored |
| JsonValue.Generator.PutElements | src/json/json_spirit_writer_template.h:177-200 | the elements of an array, each on its line |
| JsonValue.Generator.PutMembers | src/json/json_spirit_writer_template.h:177-200 | the members of an object, each on its line |
| JsonValue.WriteString | src/json/json_spirit_writer_template.h:236-245 | the whole text of a value |
| JsonValue.TextsAre | src/json/json_spirit_writer_template.h:141-222 | an array and an object in text, on one line and indented |
| JsonBuilder.ActKeeps | src/json/json_spirit_reader_template.h:212-345 | every action keeps the pointer and the stack right |
| JsonBuilder.RunKeeps | src/json/json_spirit_reader_template.h:212-345 | every sequence of actions keeps them right |
| JsonBuilder.PointersHold | src/json/json_spirit_reader_template.h:293-350 | under any sequence of actions that goes through, the stack names exactly the open ancestors of the container being filled |
| JsonBuilder.BuildValue | src/json/json_spirit_reader_template.h:293-345 | the actions of a value add exactly that value to the container at hand, and restore pointer and stack |
| JsonBuilder.BuildsValue | src/json/json_spirit_reader_template.h:293-345 | the actions of a value, from nothing, build that value |
| JsonBuilder.SemanticActions.constructor | src/json/json_spirit_reader_template.h:206-210 | nothing is built and no container is open |
| JsonBuilder.SemanticActions.AddFirst | src/json/json_spirit_reader_template.h:293-300 | the value becomes the root and is pointed to |
| JsonBuilder.SemanticActions.AddToCurrent | src/json/json_spirit_reader_template.h:329-345 | the value is added to the container at hand, under the pending name in an object |
| JsonBuilder.SemanticActions.BeginCompound | src/json/json_spirit_reader_template.h:303-317 | the old container goes on the stack and the new one is pointed to |
| JsonBuilder.SemanticActions.EndCompound | src/json/json_spirit_reader_template.h:319-327 | the enclosing container is pointed to again |
| JsonBuilder.SemanticActions.Perform | src/json/json_spirit_reader_template.h:212-281 | each grammar event performs its action |
| JsonReader.ReadString | src/json/json_spirit_reader_template.h:569-574 | succeeds exactly on the texts that read as a value, with that value |
| JsonReader.QuotedToken | src/json/json_spirit_reader_template.h:486-496 | a printed string is one token and reads back as the string, whatever follows |
| JsonReader.DecimalNumber | src/json/json_spirit_reader_template.h:498-502 | a printed integer of 64 bits reads back as that integer |
| JsonReader.ScalarRead | src/json/json_spirit_reader_template.h:450-458 | a printed scalar, behind any white space, reads as that scalar's event |
| JsonReader.ValueRead | src/json/json_spirit_reader_template.h:446-502 | a printed value at any level, behind any white space and before anything a value may be followed by, reads as exactly its events |
| JsonReader.WriteThenRead | src/json/json_spirit_reader_template.h:518-574 | every real-free value, compact or indented and whatever counts as printable, is read back from its text |
| BaseUint.BaseUint.constructor | src/hash/uint1024.h:750-754 | an integer of the given width, all limbs zero |
| BaseUint.BaseUint.PlusAssign | src/hash/uint1024.h:137-147 | the carry loop adds modulo 2^(32 width) |
| BaseUint.BaseUint.Complement | src/hash/uint1024.h:41-47 | every limb is turned over |
| BaseUint.BaseUint.Increment | src/hash/uint1024.h:172-179 | one more modulo 2^(32 width), however far the carry runs |
| BaseUint.BaseUint.Decrement | src/hash/uint1024.h:189-196 | one less modulo 2^(32 width), however far the borrow runs |
| BaseUint.BaseUint.Negated | src/hash/uint1024.h:49-56 | the additive inverse modulo 2^(32 width) |
| BaseUint.BaseUint.MinusAssign | src/hash/uint1024.h:149-153 | subtraction modulo 2^(32 width), also of an integer from itself |
| BaseUint.BaseUint.ShiftLeftAssign | src/hash/uint1024.h:103-118 | multiplication by 2^shift modulo 2^(32 width), for any shift |
| BaseUint.BaseUint.ShiftRightAssign | src/hash/uint1024.h:120-135 | the floor of division by 2^shift, for any shift |
| BaseUint.LessThan | src/hash/uint1024.h:207-217 | true exactly when the value is less |
| BaseUint.Equals | src/hash/uint1024.h:255-261 | true exactly when the values are equal |
| BaseUint.FlippedValue | src/hash/uint1024.h:49-56 | a number and its complement add up to one less than the limit |
| BaseUint.HigherLimbWins | src/hash/uint1024.h:209-215 | the highest limb that differs decides the order of values |
| BaseUint.Carried | src/hash/uint1024.h:172-179 | where the carry stops, the limbs are one more modulo the limit |
| BaseUint.ShiftLeftValue | src/hash/uint1024.h:103-118 | moving k limbs and s bits up multiplies by their powers modulo the limit |
| BaseUint.ShiftRightValue | src/hash/uint1024.h:120-135 | moving k limbs and s bits down divides by their powers, rounding down |
| BaseUint.ShiftedUpValue | src/hash/uint1024.h:110-116 | a part-limb shift up multiplies, and what leaves at the top is one limb up |
| BaseUint.ShiftedDownValue | src/hash/uint1024.h:127-133 | a part-limb shift down divides, and what leaves at the bottom is the remainder |

## Left out

- PrimeCluster.VerifyPrimeDifficulty: with `checks` of zero or less the test is Miller-Rabin alone, a predicate here, so
  the method then asks that the scan from that start stops; with one check or more it terminates unconditionally.
- PrimeCluster.Eratosthenes: sizes above 2^31, at which `PrimeCluster.LargerSievesRunOn` shows the loop does not end, are
  excluded; the program calls it with 80.
- PrimeCluster.GmpVerification: multiple-precision integers are mathematical integers, and the copy from one library's
  representation to the other's is not modelled.
- Words.RotLShifts: rotation is defined one place at a time; this lemma gives the shift form the source uses.
- SkeinBlock.RoundMacro: the register lists of the macros appear as powers of the word permutation, for all three block
  sizes at once; `Threefish.RegisterOrders` and `Threefish.RegisterOrders1024` show they are the lists in the source.
- SkeinHash.Init: always hashes the configuration block; the precomputed initial values for the common output lengths
  are constants the model does not repeat.
- SkeinHash.Final: the output length in bits plus seven is below 2^64, as in the source's `size_t`; other 64-bit
  overflows of lengths are not modelled.
- KeccakSponge.Instance.Absorb: the length is one for which the 32-bit chunk size is exact; `ChunkFails` says what happens
  otherwise. The fast lane exclusive-ors whole lanes and permutes in two steps where the source calls one routine.
- KeccakHash.Hash.Update: all calls but the last take whole bytes, and unused high bits of a partial last byte are zero,
  as the source's comments ask.
- Filling.FilledExactly: no 64-bit sum wraps, that is, the maximum, all balances and 2^31 together stay below 2^64. The
  condition is for the payments before the finder's remainder, which can make up to the finder for what the filling
  missed.
- Rewards.PaymentIs: asks for a faithful filling and a remainder that is an int; what is paid otherwise is stated for the
  two inputs named above only.
- LedgerLaws.UpdateConserves: sums stay below 2^64 and the reward after the fee below 2^32, so no credit is cut to 32
  bits; with no finder on file, no output goes to the empty address.
- Pool.Pool.constructor: over stores in order it gives the invariant without the finder. The initial finder at
  src/core.cpp:84 is a fixed address that may have no record; a new round in that state loses what
  `LedgerLaws.NewRoundConserves` says, and its blank record breaks the invariant. The first current block of a
  registered miner ends that state.
- RefundLaws.RefundRestores: like `RefundLaws.OutcomeAccount`, `OutcomeCredit`, `RoundTripAccount`,
  `RefundLeavesRemainder` and `Pool.RefundedRound`, for rounds whose finder is on file, and payouts to accounts on file.
- Pool.Pool.OrphanedRound: for books with the finder on file, as above.
- PoolRun.RunConserves: like `PoolRun.RunGives`, starts from books with the finder on file, and no 64-bit sum wraps in any
  step.
- Pool.Pool.Share: the weight is a parameter; its power of 25 in floating point is not modelled.
- Pool.Pool.BlockReward: the order of accounts is a parameter; sorting by balance is not modelled.
- Pool.Pool.NewRound: each handler is one step. Threads, locks and the unsynchronised flags between them are not modelled,
  nor are the writes to disk inside the handlers.
- Database.Database.ReadIntoMemory: the file is one that holds framed records; truncated or damaged files are not modelled.
- Packet.Connection.ReadPacket: the socket is a queue of bytes; errors, time-outs and event callbacks are not modelled.
- Address.DecodeBase58: texts hold no NUL character, which ends a C string; white space is that of the C locale.
- JsonBuilder.SemanticActions.AddToCurrent: pointers are paths into the value, so memory addresses that move when a vector
  grows are not modelled.
- JsonReader.ReadString: reads the real-free grammar only.
- JsonReader.WriteThenRead: real numbers, which print with eight decimals, and wide characters are not part of the values.
  In a string a backslash takes the next character with it; the parser library's stricter checks of octal and
  hexadecimal escapes are not modelled. Whether an integer is marked signed or unsigned is not kept.
- BaseUint.BaseUint.ShiftLeftAssign: the or of parts that share no bit is written as their sum.
- Floating point: the fee, the bonus and each credit are exact rationals with floor, and the fee is a whole percentage;
  rounding of doubles is not modelled.
- Skein tree hashing, message authentication and the separate output routine are not modelled.
- The duplex construction, big-endian builds and other Keccak implementations are not modelled.
- Bitwise operators and hexadecimal text of the wide integers are not modelled.
- The start-up loop that erases accounts with invalid addresses, statistics, the SQL store, the connection filter, the web
  interface and configuration are not modelled.
