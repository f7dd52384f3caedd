# Verified models of the Proteus benchmarks, simulator and analysis tools

This Dafny project models the parts of the repository whose correctness is not obvious from the
code and proves, for all inputs or all runs, that they do what they are for. Verify it with
`dafny verify dfyconfig.toml` (Dafny 4.11).

| module | models | main results |
|---|---|---|
| `Rv32`, `Bits` | the RV32 instructions the linearised benchmarks use; bit operations at any width, as numbers | a flag widened to a mask selects as the eliminated branch did |
| `Graph`, `Forest`, `Kruskal` | `kruskal-linear.s`: union-find without path compression, with a branch-free union | both find loops end at the root; roots are equal exactly for connected vertices; the result is vertices minus components; what is accepted is a spanning forest |
| `ModExp2` | `modexp2-linear.s`: square-and-multiply modulo 7 with reciprocal division | both reciprocal sequences are exact on every word; the exact set of bases, among all words, for which the program is exponentiation |
| `MulMod16` | `mulmod16-linear.s`: multiplication modulo 65537 on 16-bit codes | 65537 is prime, hence correct on exactly the pairs that are not both 0 |
| `Keypad` | `keypad-linear.s` over a flat 16-byte `.sbss` section | after any run the PIN buffer holds the first four presses, in order |
| `UInt128` | `FStar_UInt128_Verified.h` over two 64-bit limbs, with the masks of `FStar_UInt_8_16_32_64.h` | every operation is the native one on 128-bit numbers; the wide product is exact |
| `Bytes`, `ChaChaSpec`, `ChaChaVector`, `ChaCha20` | `Hacl_Chacha20.c` over mutable, possibly shared buffers and static scratch storage | refinement of RFC 8439 (sections 2.1, 2.3, 2.4), independence of earlier calls, in-place round trip, invertible rounds |
| `SimulatorMemory` | class `Memory` of `simulation/main.cpp` and its one call per cycle | reads cannot tell it from a total memory; they are answered exactly one cycle later; what a dump shows after any run; image files round trip |
| `StdinRing` | the stdin ring of `newlib-bsp/syscalls.c`, interrupted between any two loads and stores | it refines a bounded queue: over every session the replies are explained by the device's bursts in their order, and no byte that found room is lost, duplicated or reordered |
| `CycleCounter` | the 32-bit counter read and `sleep` of `newlib-bsp/performance.c` | the value returned is the counter's value at the accepted low read; termination |
| `StripVcd` | `strip.py` on classified lines, against a reader that runs every section to its `$end` | exactly which headers are kept and when names are lost; exactly which changes are kept; idempotence |
| `Stutter`, `WaveformCompare` | the comparison of `signal_extractor.py` and `check_security.py` | the timing-insensitive comparison decides stutter equivalence; the verdict is pairwise indistinguishability |

## How the code is modelled

- Assembly programs are methods over arrays and 32-bit registers, instruction by instruction;
  each masked region is proved equal to the branch it replaced, and what the branching program
  means is proved about a function of the inputs.
- C buffers are arrays. A pointer into the middle of one is the array and an index, so two
  parameters may lie in the same array. The static buffers of the C file are fields whose contents
  are arbitrary at the start of every call, so a contract that does not mention them says that
  nothing an earlier call left behind matters.
- 64-bit and 128-bit words are numbers with the wrap-around written out; the words of ChaCha20 and
  of the simulator memory are bit vectors.
- Interrupts are points between two steps of the program at which a burst of any length may arrive,
  one byte to every invocation of the interrupt routine. The ring keeps a history of bursts and
  reads; a queue of 255 places says what the history means. The counter is an arbitrary monotone function of the position in the sequence of register
  reads, so any time may pass between two of them.
- A line of a value change dump carries both readings the tool may give it: `head`, by the patterns
  of the header loop, and `body`, by those of the value loop, and says whether `$end` is on it. Which
  reading matters depends on where the header ends. The reader the tool is compared with knows
  neither of the tool's flags: a section runs from its keyword to the next `$end`.

## Where the code and its comments disagree

- `kruskal-linear.s:75-85` says that a rejected edge stores -1 twice. It stores the common root
  minus one (`Kruskal.RejectedCell`, `Kruskal.RejectedCellExample`). A reader of `mst` can still
  recover the forest, because the two entries of an edge differ exactly when it was accepted
  (`Kruskal.ForestFromCells`).
- `mulmod16-linear.s:12-54` replaces two consecutive branches, the first of which used to leave the
  function. With both operands 0 modulo 2^16 both masked cases apply and 0 is returned, which
  stands for 65536, where the product is 1 (`MulMod16.LinearCorrectWhen`).
- `modexp2-linear.s:18` squares the base in 32 bits before reducing it, so it is exponentiation for
  all exponents exactly when the overflow of that square is a multiple of 7
  (`ModExp2.PowerExactlyWhen`, `ModExp2.LargeBaseFails`).
- `strip.py:41-55` keeps at most two lines of a `$timescale`. In the three-line form, `$timescale`,
  `1ps`, `$end`, the section stays open in the output and swallows the next line, usually the first
  scope; and a value of one digit with a space before its unit, as in `$timescale 1 ps $end`, is not
  seen, so that the next line that declares nothing, if need be the end of the header, is taken for
  it (`StripVcd.KeptExactlyInTime`, `StripVcd.NamesKeptExactly`, `StripVcd.ThreeLineTimescale`,
  `StripVcd.SpacedTimescale`).
- `strip.py:72` takes a scalar change to `z` for a longer identifier and drops it
  (`StripVcd.ValuesKeptWhen`, `StripVcd.HighImpedanceLost`).
- `signal_extractor.py:86-109` with the display switched on walks the first list only, so it says
  "equal" when that list is a proper prefix of the other, and raises an IndexError in the opposite
  case (`WaveformCompare.DisplayAgreesWhen`, `WaveformCompare.PrefixDisplay`).
- `performance.c:54` adds modulo 2^64: `sleep` waits long enough exactly when the end time does not
  wrap (`CycleCounter.Sleep`, `CycleCounter.SleptShort`).

## Model

| member | source | states |
|---|---|---|
| `Kruskal.Kruskal` | benchmarks/ami-suite/kruskal/kruskal-linear.s:6-93 | for every edge list of odd `len` (and `len` 1 or below): the parent array and the stored pairs are those of the branching union-find, `a0` and `mst[0]` are the number of vertices minus the number of connected components, two vertices have the same root exactly when the edges connect them, and nothing past `len` is written; on the edge list itself: the ends of every edge have the same root, any marking of the vertices that agrees on all edges agrees on vertices with the same root, `a0` is the number of vertices that are not roots, and the entries of edge k are at 2k + 1 and 2k + 2 |
| `Kruskal.JoinsExactly` | benchmarks/ami-suite/kruskal/kruskal-linear.s:32-68 | edge k joins the vertices stored at 2k + 1 and 2k + 2, and nothing is joined beyond what the edges demand |
| `Kruskal.RootsLeft` | benchmarks/ami-suite/kruskal/kruskal-linear.s:69-73 | the count is the number of vertices that are no longer their own parents |
| `Kruskal.Initialise` | benchmarks/ami-suite/kruskal/kruskal-linear.s:11-18 | every vertex becomes its own root, every entry of `mst` becomes -1 |
| `Kruskal.Edgewise` | benchmarks/ami-suite/kruskal/kruskal-linear.s:24-87 | the masked loop refines the branching program over the whole edge list |
| `Kruskal.EdgeStep` | benchmarks/ami-suite/kruskal/kruskal-linear.s:31-87 | one masked iteration is one branching step and touches only `par` and its own two entries of `mst` |
| `Kruskal.Find` | benchmarks/ami-suite/kruskal/kruskal-linear.s:35-50 | following parents terminates, although no path is ever compressed, and ends at the root, with `t2` at its slot |
| `Kruskal.Union` | benchmarks/ami-suite/kruskal/kruskal-linear.s:53-85 | the masked code links and counts when the roots differ, and changes neither `par` nor the count when they are equal |
| `Kruskal.RunConnects` | benchmarks/ami-suite/kruskal/kruskal-linear.s:31-68 | after any list of edges two vertices reach the same root exactly when a path of processed edges connects them |
| `Kruskal.RunSpans` | benchmarks/ami-suite/kruskal/kruskal-linear.s:52-73 | the accepted edges, and also the recorded root pairs, connect exactly what the input connects, and there are as many as the count says |
| `Kruskal.RunCounts` | benchmarks/ami-suite/kruskal/kruskal-linear.s:69-93 | count plus number of connected components equals the number of vertices |
| `Kruskal.SpanningForest` | benchmarks/ami-suite/kruskal/kruskal-linear.s:52-93 | the accepted edges, and the recorded root pairs, are acyclic (each is a bridge) and have the connectivity of the whole input: a spanning forest |
| `Kruskal.RunPicks` | benchmarks/ami-suite/kruskal/kruskal-linear.s:52-73 | the accepted edges are edges of the input in their order, namely those whose ends the edges before them do not connect |
| `Kruskal.ForestFromCells` | benchmarks/ami-suite/kruskal/kruskal-linear.s:24-29 | reading `mst` back, keeping the entries that differ, gives exactly the recorded forest |
| `Kruskal.RejectedCell` | benchmarks/ami-suite/kruskal/kruskal-linear.s:75-85 | in every run, the i-th pair of entries: the two different roots if the edges before do not connect the i-th edge's ends; otherwise twice the common root minus one, which is the -1 of the comment exactly when that root is vertex 0 |
| `Kruskal.RejectedCellExample` | benchmarks/ami-suite/kruskal/kruskal-linear.s:75-85 | the input `g[1] = g[2] = 1` with `len` 3 leaves 0, not -1 |
| `Forest.OneRoot` | benchmarks/ami-suite/kruskal/kruskal-linear.s:35-40 | all climbs from a vertex that reach a root reach the same one |
| `Forest.LinkRoots` | benchmarks/ami-suite/kruskal/kruskal-linear.s:60-68 | storing one root as another root's parent keeps a forest and moves exactly the vertices of the first tree |
| `Graph.AddEdge` | benchmarks/ami-suite/kruskal/kruskal-linear.s:31-68 | one more edge connects exactly the pairs that were connected or that reach its two ends |
| `Graph.MergedComponents` | benchmarks/ami-suite/kruskal/kruskal-linear.s:69-73 | an edge between unconnected vertices lowers the number of components by one |
| `Graph.TightIsAcyclic` | benchmarks/ami-suite/kruskal/kruskal-linear.s:69-93 | if edges plus components equal vertices, no edge can be left out: every one is a bridge |
| `Rv32.BranchMask` | benchmarks/ami-suite/kruskal/kruskal-linear.s:53-57 | sub, snez, andi, neg give all ones exactly when `bne` would be taken, zero otherwise |
| `Rv32.Select` | benchmarks/ami-suite/kruskal/kruskal-linear.s:64-67 | the and/and/or sequence picks one operand or the other, as the mask says |
| `ModExp2.ModExp2` | benchmarks/ami-suite/modexp2/modexp2-linear.s:6-68 | for every pair of words the loop of 32 iterations gives the reduced power after the first squaring: 1 for a negative exponent, and C's remainder of the power by 7 otherwise if the overflow of the base's 32-bit square is a multiple of 7 |
| `ModExp2.Iteration` | benchmarks/ami-suite/modexp2/modexp2-linear.s:18-55 | one trip squares the base modulo 7, halves the exponent, and multiplies exactly when the exponent is odd and not negative |
| `ModExp2.SignedRemainder` | benchmarks/ami-suite/modexp2/modexp2-linear.s:33-40 | the signed reciprocal sequence leaves the exact truncated remainder by 7, for every word |
| `ModExp2.UnsignedRemainder` | benchmarks/ami-suite/modexp2/modexp2-linear.s:18-26 | the unsigned reciprocal sequence leaves the exact remainder by 7, for every word |
| `ModExp2.SquareStep` | benchmarks/ami-suite/modexp2/modexp2-linear.s:31-56 | the loop invariant of square-and-multiply: moving the low bit into the result keeps result times power, also for negative results |
| `ModExp2.OddExponent` | benchmarks/ami-suite/modexp2/modexp2-linear.s:31-44 | and-ing with 0x80000001 gives 1 exactly for odd non-negative exponents |
| `ModExp2.PowerExactlyWhen` | benchmarks/ami-suite/modexp2/modexp2-linear.s:6-68 | for every base word, read as signed, the result is C's remainder of y^k by 7 at every non-negative exponent if and only if the overflow of the 32-bit square is a multiple of 7 |
| `ModExp2.SignedPower` | benchmarks/ami-suite/modexp2/modexp2-linear.s:31-56 | one squaring modulo 7 and square-and-multiply from there give C's remainder of the power, for negative bases too |
| `ModExp2.SmallBase` | benchmarks/ami-suite/modexp2/modexp2-linear.s:6-68 | the result is y^k mod 7 for every 16-bit base and non-negative exponent |
| `ModExp2.LargeBaseFails` | benchmarks/ami-suite/modexp2/modexp2-linear.s:18-26 | 65536 squared comes out as 0 instead of 4 |
| `MulMod16.MulMod16` | benchmarks/ami-suite/mulmod16/mulmod16-linear.s:6-57 | the masked program agrees with the branching one except on two zero codes, where it leaves 0 |
| `MulMod16.ZeroCase` | benchmarks/ami-suite/mulmod16/mulmod16-linear.s:16-40 | a masked zero case stores 65537 minus the other operand exactly when its test is 0, and leaves the mask for the third case |
| `MulMod16.ProductCase` | benchmarks/ami-suite/mulmod16/mulmod16-linear.s:42-54 | the third case stores low minus high word plus borrow exactly when both operands are non-zero |
| `MulMod16.OnlyTrivialDivisors` | benchmarks/ami-suite/mulmod16/mulmod16-linear.s:42-54 | 65537 is prime |
| `MulMod16.NoZeroProduct` | benchmarks/ami-suite/mulmod16/mulmod16-linear.s:42-54 | a product of non-multiples of 65537 is not a multiple of it |
| `MulMod16.ProductMod` | benchmarks/ami-suite/mulmod16/mulmod16-linear.s:43-54 | low minus high word is the product modulo 65537; equal words cannot happen |
| `MulMod16.BranchingCorrect` | benchmarks/ami-suite/mulmod16/mulmod16-linear.s:12-57 | the eliminated branches multiply modulo 65537, code 0 standing for 65536 |
| `MulMod16.LinearCorrectWhen` | benchmarks/ami-suite/mulmod16/mulmod16-linear.s:6-57 | the masked program does so exactly when not both codes are 0 |
| `Keypad.Init` | benchmarks/ami-suite/keypad/keypad-linear.s:7-14 | clears count, key state and index |
| `Keypad.KeyBit` | benchmarks/ami-suite/keypad/keypad-linear.s:42-80 | one masked iteration stores the key and advances the index exactly when its bit rose and there is room; otherwise all 16 bytes are unchanged, also when the store hits the index itself |
| `Keypad.KeyBitHolds` | benchmarks/ami-suite/keypad/keypad-linear.s:46-80 | an iteration keeps the buffer equal to the first four presses so far |
| `Keypad.PollKeys` | benchmarks/ami-suite/keypad/keypad-linear.s:33-88 | one poll appends the rising keys in bit order and returns how many are missing |
| `Keypad.Poll` | benchmarks/ami-suite/keypad/keypad-linear.s:19-94 | the same for the keys the sample table gives at the current count, which goes up by one |
| `Keypad.Run` | benchmarks/ami-suite/keypad/keypad-linear.s:7-94 | after any sequence of arbitrary polls the buffer holds the first four presses, in poll and bit order, and the index is the smaller of 4 and their number |
| `Keypad.PressedAre` | benchmarks/ami-suite/keypad/keypad-linear.s:42-83 | what a poll reports are the characters of exactly the keys whose bit rose, in increasing bit order |
| `Keypad.DownPower` | benchmarks/ami-suite/keypad/keypad-linear.s:43-44 | bit b alone is key b alone |
| `Keypad.KeyMapIs` | benchmarks/ami-suite/keypad/keypad-linear.s:114-130 | the sixteen keys are 1470258F369EABCD |
| `Keypad.OwnRun` | benchmarks/ami-suite/keypad/keypad-linear.s:7-112 | the program on its own sample table, with a key held over two polls: from the ninth poll on the PIN is 1470 |
| `UInt128.CarryIsLess` | benchmarks/spectreguard/include/kremlib/FStar_UInt128_Verified.h:17-25 | the branch-free carry is 1 exactly when a < b, 0 otherwise |
| `UInt128.AddCorrect` | benchmarks/spectreguard/include/kremlib/FStar_UInt128_Verified.h:27-52 | limb addition is addition modulo 2^128 |
| `UInt128.SubCorrect` | benchmarks/spectreguard/include/kremlib/FStar_UInt128_Verified.h:54-85 | limb subtraction is subtraction modulo 2^128 |
| `UInt128.SubUndoesAdd` | benchmarks/spectreguard/include/kremlib/FStar_UInt128_Verified.h:27-85 | addition and subtraction undo each other |
| `UInt128.LogicalCorrect` | benchmarks/spectreguard/include/kremlib/FStar_UInt128_Verified.h:87-120 | limb-wise and, or, xor and not are the 128-bit operations |
| `UInt128.ShiftLeftCorrect` | benchmarks/spectreguard/include/kremlib/FStar_UInt128_Verified.h:124-171 | for every shift below 128, multiplication by 2^s modulo 2^128 |
| `UInt128.ShiftRightCorrect` | benchmarks/spectreguard/include/kremlib/FStar_UInt128_Verified.h:173-220 | for every shift below 128, floor division by 2^s |
| `UInt128.ComparisonsCorrect` | benchmarks/spectreguard/include/kremlib/FStar_UInt128_Verified.h:222-245 | the five comparisons order the numbers the limbs stand for |
| `UInt128.Masks128Correct` | benchmarks/spectreguard/include/kremlib/FStar_UInt128_Verified.h:247-267 | the 128-bit masks are all ones exactly when the numbers are equal or greater-or-equal, zero otherwise, and agree with the comparisons |
| `UInt128.Mul32Correct` | benchmarks/spectreguard/include/kremlib/FStar_UInt128_Verified.h:282-308 | the product of a 64-bit and a 32-bit number is exact |
| `UInt128.MulWideCorrect` | benchmarks/spectreguard/include/kremlib/FStar_UInt128_Verified.h:310-343 | high * 2^64 + low is the product of the two 64-bit numbers |
| `UInt128.MulWideHalves` | benchmarks/spectreguard/include/kremlib/FStar_UInt128_Verified.h:315-343 | high and low limb together are the weighted sum of the four half products |
| `UInt128.MulWideSums` | benchmarks/spectreguard/include/kremlib/FStar_UInt128_Verified.h:315-343 | neither of the two middle sums nor the sum of the high limb wraps around |
| `UInt128.EqMaskCorrect` | benchmarks/spectreguard/include/kremlib/FStar_UInt_8_16_32_64.h:37-44 | at every width, all ones exactly when the operands are equal, zero otherwise |
| `UInt128.GteMaskCorrect` | benchmarks/spectreguard/include/kremlib/FStar_UInt_8_16_32_64.h:46-57 | at every width, all ones exactly when a >= b, zero otherwise |
| `UInt128.XorIsZero` | benchmarks/spectreguard/include/kremlib/FStar_UInt_8_16_32_64.h:37-39 | the xor of two words is 0 exactly when they are equal |
| `UInt128.BorrowBit` | benchmarks/spectreguard/include/kremlib/FStar_UInt_8_16_32_64.h:46-55 | the sign bit of the xor-subtract expression is the borrow of x - y, at every width |
| `Bits.TopBit` | benchmarks/spectreguard/include/kremlib/FStar_UInt_8_16_32_64.h:50-55 | the sign bit of a bitwise result is the operation on the sign bits |
| `Bits.AndLow` | benchmarks/spectreguard/include/kremlib/FStar_UInt128_Verified.h:282-285 | masking with 2^k - 1 is the remainder by 2^k |
| `ChaCha20.QuarterRoundInPlace` | benchmarks/spectreguard/Hacl_Chacha20.c:32-90 | the in-place code is the quarter round of RFC 8439 section 2.1 on any four distinct words |
| `ChaCha20.DoubleRoundInPlace` | benchmarks/spectreguard/Hacl_Chacha20.c:92-102 | four column and four diagonal rounds |
| `ChaCha20.RoundsInPlace` | benchmarks/spectreguard/Hacl_Chacha20.c:104-116 | ten double rounds |
| `ChaCha20.Core` | benchmarks/spectreguard/Hacl_Chacha20.c:118-132 | the RFC 8439 section 2.3 block of the state with the offset added to its counter: adding it before and after the rounds counts it once; `ctx` is not written |
| `ChaCha20.Init` | benchmarks/spectreguard/Hacl_Chacha20.c:139-177 | constants, key, counter and nonce, as in section 2.3 |
| `ChaCha20.Store32Le` | benchmarks/spectreguard/include/kremlin/lowstar_endianness.h:187-202 | writes the four bytes of a word, least significant first, and nothing else |
| `Bytes.BitOfByte` | benchmarks/spectreguard/include/kremlin/lowstar_endianness.h:170-201 | bit n of a word is bit n % 8 of byte n / 8 |
| `ChaCha20.Hacl.EncryptBlock` | benchmarks/spectreguard/Hacl_Chacha20.c:179-213 | xors 64 bytes with the block whatever the static buffers held, also when text and output overlap in any way, and writes exactly these 64 bytes |
| `ChaCha20.Hacl.XorWords` | benchmarks/spectreguard/Hacl_Chacha20.c:187-208 | the word loops leave text words xor block words |
| `ChaCha20.Hacl.StoreWords` | benchmarks/spectreguard/Hacl_Chacha20.c:209-212 | the store loop writes the 64 bytes in little-endian order and nothing else |
| `ChaCha20.Hacl.EncryptLast` | benchmarks/spectreguard/Hacl_Chacha20.c:215-222 | the partial block is right although it is computed in place on a buffer with stale bytes; nothing past `len` is written |
| `ChaCha20.Hacl.Update` | benchmarks/spectreguard/Hacl_Chacha20.c:224-241 | byte j is xored with byte j % 64 of the block for counter ctr + j / 64 modulo 2^32; nothing else of the output changes; `ctx` is not written |
| `ChaCha20.Hacl.UpdateBlock` | benchmarks/spectreguard/Hacl_Chacha20.c:230-236 | one block extends what is written and keeps the unread text, in place too |
| `ChaCha20.Hacl.Encrypt` | benchmarks/spectreguard/Hacl_Chacha20.c:243-256 | for every key, nonce, counter and length, the RFC 8439 section 2.4 cipher text, independent of earlier calls; byte by byte: byte j is xored with byte j % 64 of the block of key, nonce and counter ctr + j / 64, and every byte outside is unchanged |
| `ChaCha20.Hacl.Decrypt` | benchmarks/spectreguard/Hacl_Chacha20.c:258-271 | the same stream, through its own context, byte by byte |
| `ChaCha20.Hacl.RoundTrip` | benchmarks/spectreguard/Hacl_Chacha20.c:243-271 | encrypting a text to one buffer and decrypting that to another gives the text, for every length and every overlap the two calls admit, and nothing else is written |
| `ChaCha20.Hacl.InPlaceRoundTrip` | benchmarks/spectreguard/Hacl_Chacha20.c:243-271 | encrypting a buffer onto itself and decrypting it onto itself restores it, for every length |
| `ChaChaSpec.UnquarterQuarter` | benchmarks/spectreguard/Hacl_Chacha20.c:58-89 | the inverse undoes the quarter round |
| `ChaChaSpec.QuarterUnquarter` | benchmarks/spectreguard/Hacl_Chacha20.c:58-89 | the quarter round undoes its inverse |
| `ChaChaSpec.QuarterRoundInverse` | benchmarks/spectreguard/Hacl_Chacha20.c:32-90 | at any four distinct indices it is invertible and leaves the other twelve words alone |
| `ChaChaSpec.DoubleRoundInverse` | benchmarks/spectreguard/Hacl_Chacha20.c:92-102 | a double round is a bijection on states |
| `ChaChaSpec.RoundsInverse` | benchmarks/spectreguard/Hacl_Chacha20.c:104-116 | so is any number of them |
| `ChaChaSpec.BlockUndone` | benchmarks/spectreguard/Hacl_Chacha20.c:118-132 | taking the input away from a block and undoing the rounds gives the input |
| `ChaChaVector.BlockVector` | benchmarks/spectreguard/Hacl_Chacha20.c:118-177 | the example of RFC 8439 section 2.3.2: key, counter and nonce to state, twenty rounds, final addition |
| `ChaChaSpec.InitialAt` | benchmarks/spectreguard/Hacl_Chacha20.c:139-177 | where constants, key words, counter and nonce words are |
| `ChaChaSpec.Seek` | benchmarks/spectreguard/Hacl_Chacha20.c:118-131 | the initial state at a counter offset is the initial state for the counter plus that offset |
| `ChaChaSpec.Counting` | benchmarks/spectreguard/Hacl_Chacha20.c:230-234 | counters add up as numbers do, starting from 0 and 1, modulo 2^32 |
| `ChaChaSpec.StreamAt` | benchmarks/spectreguard/Hacl_Chacha20.c:224-241 | byte j of the stream comes from the block whose counter is j / 64 more than the initial one |
| `ChaChaSpec.QuarterVector` | benchmarks/spectreguard/Hacl_Chacha20.c:58-89 | the example of RFC 8439 section 2.1.1 |
| `ChaChaSpec.StreamAppend` | benchmarks/spectreguard/Hacl_Chacha20.c:230-240 | the stream splits at block boundaries |
| `ChaChaSpec.StreamInvolution` | benchmarks/spectreguard/Hacl_Chacha20.c:243-271 | applying the key stream twice gives the text back, for every length |
| `SimulatorMemory.Memory.constructor` | simulation/main.cpp:46-70 | the memory is the file's little-endian words |
| `SimulatorMemory.Memory.Eval` | simulation/main.cpp:72-109 | one cycle answers exactly the read of the cycle before and accepts one request, on the total memory |
| `SimulatorMemory.Memory.Dump` | simulation/main.cpp:111-123 | writes the bytes of all words |
| `SimulatorMemory.DumpedByte` | simulation/main.cpp:113-119 | byte 4 i + k of a dump is byte k of word i |
| `SimulatorMemory.Memory.ReadLine` | simulation/main.cpp:131-140 | reads the four words of the line of the total memory and changes none of it, although the vector may grow |
| `SimulatorMemory.Memory.WriteLine` | simulation/main.cpp:142-167 | merges exactly the strobed bytes of the line; every other word of the total memory is unchanged |
| `SimulatorMemory.Memory.BitMask` | simulation/main.cpp:149-156 | the inner loop sets exactly the strobed byte lanes |
| `SimulatorMemory.MaskMerges` | simulation/main.cpp:146-161 | and-not, and, or with that mask merge byte by byte |
| `SimulatorMemory.StrobeBit` | simulation/main.cpp:153 | bit n of the strobes is lane n |
| `SimulatorMemory.StrobeEither` | simulation/main.cpp:153 | lanes are strobed independently |
| `SimulatorMemory.WordStored` | simulation/main.cpp:142-167 | strobes 0xf << 4 i replace word i of the line and no other word |
| `SimulatorMemory.LineStored` | simulation/main.cpp:142-167 | strobes 0xffff replace the four words of the line and no other word |
| `SimulatorMemory.Memory.EnsureEnoughMemory` | simulation/main.cpp:169-180 | growing is not observable through reads; afterwards exactly the line and the first word of the next one are stored, or more if more was |
| `SimulatorMemory.LastWriteWins` | simulation/main.cpp:142-167 | a byte is the one of the last accepted write that strobed it |
| `SimulatorMemory.NeverWritten` | simulation/main.cpp:142-167 | a byte no write strobed is the one of the image, or of 0xcafebabe beyond it |
| `SimulatorMemory.Simulate` | simulation/main.cpp:390-406 | over every request sequence a read accepted in one cycle, and nothing else, is answered in the next, with its id and the line as all writes before it left it; the words stored in the end, which a dump shows, are those of the total memory up to the extent of the run |
| `SimulatorMemory.ExtentIsMaximum` | simulation/main.cpp:169-180 | that extent is the maximum of the image's length and the ends of all addressed lines |
| `SimulatorMemory.LoadDump` | simulation/main.cpp:111-123 | loading a dump gives the memory back |
| `SimulatorMemory.DumpLoad` | simulation/main.cpp:46-70 | dumping a loaded image gives the file back |
| `StdinRing.Stdin.constructor` | newlib-bsp/syscalls.c:15-19 | the ring starts empty |
| `StdinRing.Stdin.Isr` | newlib-bsp/syscalls.c:36-44 | a byte is appended if fewer than 255 are held, and left in the device otherwise; no held byte is overwritten |
| `StdinRing.Stdin.IsEmpty` | newlib-bsp/syscalls.c:26-29 | interrupts between its two loads can only make "not empty" true |
| `StdinRing.Stdin.Point` | newlib-bsp/syscalls.c:36-44 | between two steps the device's next burst is served: the history grows by exactly this burst and the ring by the bytes of it that find room |
| `StdinRing.Stdin.Peek` | newlib-bsp/syscalls.c:81 | the byte at the read position is the oldest, also when interrupts come between loading the position and loading the byte |
| `StdinRing.Stdin.TakeByte` | newlib-bsp/syscalls.c:79-85 | takes the oldest byte although interrupts come between its steps |
| `StdinRing.Stdin.Read` | newlib-bsp/syscalls.c:68-88 | the bytes returned are the next ones of the queue, in order; the error codes; 0 only if 0 bytes were asked for; it fails with EAGAIN or stops early only if at some moment of the call all accepted bytes had been taken; a burst is served if there is one |
| `StdinRing.Stdin.Fill` | newlib-bsp/syscalls.c:79-87 | the read loop: the next bytes of the queue, at least those held when it started unless the buffer is full |
| `StdinRing.Session` | newlib-bsp/syscalls.c:36-88 | over every sequence of calls and every device a history made of the device's bursts in their order explains every return value and every byte; the bytes read followed by the ring's contents are the concatenated parts of these bursts that found room, with at most 255 held, and at least one burst is served in every call unless the device has none left |
| `StdinRing.Conservation` | newlib-bsp/syscalls.c:36-88 | in every history of the queue, bytes taken followed by bytes held are the accepted ones |
| `StdinRing.Stored` | newlib-bsp/syscalls.c:36-44 | storing at the write position appends to the unread bytes, around the end of the buffer too |
| `StdinRing.Taken` | newlib-bsp/syscalls.c:79-85 | equal positions mean no unread bytes; advancing the read position drops exactly the oldest |
| `CycleCounter.Rdcycle` | newlib-bsp/performance.c:5-18 | the value is the counter's at the low read of the first attempt whose high reads agree, and there are at most as many retries as the high half went up |
| `CycleCounter.StableRead` | newlib-bsp/performance.c:10-17 | equal high reads around the low read mean the joined value is the counter at the low read |
| `CycleCounter.TornRead` | newlib-bsp/performance.c:10-17 | without the check a value the counter never had can be returned |
| `CycleCounter.Sleep` | newlib-bsp/performance.c:52-60 | it polls the counter, one accepted read after the other, until the first that has reached the end time; `began` and `ended` are the counter's values at the first and the last of these reads, and at least the requested cycles lie between them if and only if the end time does not wrap |
| `CycleCounter.InnerPolls` | newlib-bsp/performance.c:54-59 | while it goes on, less than the requested cycles have passed; if the end time wraps it reads the counter just twice |
| `CycleCounter.EndTimeWraps` | newlib-bsp/performance.c:54-56 | a counter that starts nine short of its last value and a sleep of 100 cycles: the end time is 91, which the counter has passed |
| `CycleCounter.SleptShort` | newlib-bsp/performance.c:52-60 | with that counter every behaviour of such a sleep ends 3 cycles after it began |
| `CycleCounter.ShortSleep` | newlib-bsp/performance.c:52-60 | the program run on that counter does so |
| `WaveformCompare.GetSignalsPerClk` | waveform-analysis/src/waveform_analysis/signal_extractor.py:20-33 | one row per clock period up to and including the last edge's |
| `WaveformCompare.GetSignalsPerChange` | waveform-analysis/src/waveform_analysis/signal_extractor.py:35-61 | the rows of active cycles with neighbouring repetitions collapsed |
| `WaveformCompare.RowsAgree` | waveform-analysis/src/waveform_analysis/signal_extractor.py:30-31 | two rows are equal exactly when every listed signal shows the same value in both |
| `WaveformCompare.RowsAtTimes` | waveform-analysis/src/waveform_analysis/signal_extractor.py:46-59 | the rows compared without timing are those at the sampling times with an active retirement stage, in order |
| `WaveformCompare.CompareSignals` | waveform-analysis/src/waveform_analysis/signal_extractor.py:75-109 | equality without display; with display exactly when it says equal, different or raises an IndexError |
| `WaveformCompare.DisplayAgreesWhen` | waveform-analysis/src/waveform_analysis/signal_extractor.py:86-109 | the display agrees with equality if and only if the first list is not a proper prefix of the second and, with early exit, the second not of the first, or without it, the second is not shorter |
| `WaveformCompare.PrefixDisplay` | waveform-analysis/src/waveform_analysis/signal_extractor.py:86-109 | for two concrete runs whose lists differ every outcome of the display is "equal" one way round and an IndexError the other way |
| `WaveformCompare.ComparisonDecides` | waveform-analysis/src/waveform_analysis/signal_extractor.py:35-61 | the timing-insensitive comparison is true exactly when the active samples are stutter equivalent |
| `WaveformCompare.IndistinguishableMeans` | waveform-analysis/src/waveform_analysis/signal_extractor.py:35-61 | on the values: the active times of both runs can be cut into equally many blocks so that every listed signal shows the same value at any two times from corresponding blocks |
| `WaveformCompare.ClockEqualityMeans` | waveform-analysis/src/waveform_analysis/signal_extractor.py:20-33 | on the values: equally many samples, and at each of them every listed signal shows the same value in both runs |
| `WaveformCompare.TimingSensitiveIsFiner` | waveform-analysis/src/waveform_analysis/signal_extractor.py:20-61 | equality clock by clock implies it, if the active signal is compared |
| `WaveformCompare.SecurityChecker.SecureForAllInputs` | waveform-analysis/src/waveform_analysis/check_security.py:23-34 | without display, and with display for equally long lists, the verdict is that all runs are pairwise indistinguishable; with display in general: true if every list begins with the base's, otherwise an IndexError or false as the first list that does not begins the base's or differs from it; the first call fixes the signals |
| `WaveformCompare.AllLikeFirst` | waveform-analysis/src/waveform_analysis/check_security.py:31-34 | the loop over the other runs has exactly these outcomes |
| `WaveformCompare.ShownAgreesWhen` | waveform-analysis/src/waveform_analysis/check_security.py:23-34 | with display the verdict is pairwise indistinguishability if and only if a base that every list begins with is all of each, and the first list that does not begin with it does not merely stop short of it |
| `WaveformCompare.BaseSuffices` | waveform-analysis/src/waveform_analysis/check_security.py:31-34 | comparing every run with the first is enough |
| `Stutter.CollapseDecides` | waveform-analysis/src/waveform_analysis/signal_extractor.py:58-59 | two sequences collapse to the same one exactly when both repeat elements of one sequence |
| `Stutter.BlocksDecide` | waveform-analysis/src/waveform_analysis/signal_extractor.py:58-59 | stutter equivalence is that both sequences can be cut into equally many blocks with equal elements in corresponding ones |
| `Stutter.CollapseStretch` | waveform-analysis/src/waveform_analysis/signal_extractor.py:58-59 | repeating elements does not change what a sequence collapses to |
| `Stutter.StretchRuns` | waveform-analysis/src/waveform_analysis/signal_extractor.py:58-59 | every sequence is its collapsed form with elements repeated |
| `StripVcd.SetIds` | waveform-analysis/src/waveform_analysis/strip.py:10-62 | the loop writes, collects and leaves unread what the header function says |
| `StripVcd.LoadValues` | waveform-analysis/src/waveform_analysis/strip.py:65-77 | exactly the timestamps and the lines whose matched identifier is collected are appended |
| `StripVcd.KeptLinesAre` | waveform-analysis/src/waveform_analysis/strip.py:66-77 | a body line is in the output exactly when it is to be kept, and lines keep their order |
| `StripVcd.KeepsWhen` | waveform-analysis/src/waveform_analysis/strip.py:72-77 | a change of any identifier is kept exactly when it is plain and a requested signal has the identifier, or it is not plain and mistaken for one |
| `StripVcd.OthersDropped` | waveform-analysis/src/waveform_analysis/strip.py:65-84 | of identifiers nobody requested the output shows no plain value |
| `StripVcd.OneMoreValue` | waveform-analysis/src/waveform_analysis/strip.py:65-77 | the values of an identifier in a dump: each change adds its value at the time of the last timestamp before it |
| `StripVcd.WholeValue` | waveform-analysis/src/waveform_analysis/strip.py:72 | equal values mean equal change lines |
| `StripVcd.StripFile` | waveform-analysis/src/waveform_analysis/strip.py:80-84 | both passes over one file |
| `StripVcd.WholePart` | waveform-analysis/src/waveform_analysis/strip.py:10-55 | what the tool writes for a header that is not cut, followed by anything, reads section by section as the original header without the other signals; its dictionary holds exactly the requested declarations, and it stops where the header ends |
| `StripVcd.LostPart` | waveform-analysis/src/waveform_analysis/strip.py:41-55 | otherwise a declaration or the body is lost |
| `StripVcd.KeptExactly` | waveform-analysis/src/waveform_analysis/strip.py:10-84 | a header is kept for every body and every request if and only if no section is written without its end and its own end is not taken for a timescale's value |
| `StripVcd.KeptExactlyInTime` | waveform-analysis/src/waveform_analysis/strip.py:41-55 | in terms of the lines: a header with a `$timescale` is kept if and only if this is closed on the line with the value the tool sees, the first or the second one, or is a single line whose value it misses, followed, after declarations at most, by a line that opens no section, such as a blank one or a section on a single line |
| `StripVcd.KeptWithoutTimescale` | waveform-analysis/src/waveform_analysis/strip.py:10-84 | a header without one is always kept |
| `StripVcd.NamesKeptExactly` | waveform-analysis/src/waveform_analysis/strip.py:10-62 | if the `$timescale` precedes the declarations and a requested signal lies in the first scope, the requested signals, aliases included, keep their full names if and only if it is closed in time; otherwise, if the first scope is the only outermost one, every name loses exactly this scope |
| `StripVcd.OneScope` | waveform-analysis/src/waveform_analysis/strip.py:26 | the full name in one scope is scope, dot, name |
| `StripVcd.Nested` | waveform-analysis/src/waveform_analysis/strip.py:26 | full names compose: scopes are joined outermost first |
| `StripVcd.LeavesLast` | waveform-analysis/src/waveform_analysis/strip.py:38 | leaving a scope removes the innermost one |
| `StripVcd.AllPrefixed` | waveform-analysis/src/waveform_analysis/strip.py:26-39 | inside one more scope every name begins with it, and identifiers are the same |
| `StripVcd.FirstScopeMatters` | waveform-analysis/src/waveform_analysis/strip.py:26-39 | without its first scope a header declares the same names exactly if that scope holds no signal |
| `StripVcd.OnlyRequested` | waveform-analysis/src/waveform_analysis/strip.py:26-29 | the signals of the kept header are the requested ones under their full names |
| `StripVcd.ThreeLineTimescale` | waveform-analysis/src/waveform_analysis/strip.py:49-55 | `$timescale`, `1ps`, `$end` on three lines: the output declares clk instead of TOP.clk |
| `StripVcd.SpacedTimescale` | waveform-analysis/src/waveform_analysis/strip.py:41-55 | `$timescale 1 ps $end` on one line: the end of the header is not recognised and the timestamp after it is lost |
| `StripVcd.StripAgain` | waveform-analysis/src/waveform_analysis/strip.py:10-55 | stripping a stripped header changes nothing, whatever follows |
| `StripVcd.StripIdempotent` | waveform-analysis/src/waveform_analysis/strip.py:80-84 | stripping twice is stripping once, for every file, also one without end of header |
| `StripVcd.KeptValues` | waveform-analysis/src/waveform_analysis/strip.py:65-77 | the timestamped values of an identifier are the same in the kept lines exactly when all its change lines are kept |
| `StripVcd.ValuesKeptWhen` | waveform-analysis/src/waveform_analysis/strip.py:65-84 | a requested signal keeps its timestamped values if and only if each change of it in the original has only the digits x, 0 and 1, or is a scalar whose value and identifier together spell the identifier of a requested signal |
| `StripVcd.PlainValuesKept` | waveform-analysis/src/waveform_analysis/strip.py:72-84 | so it does when it only takes values of x, 0 and 1 |
| `StripVcd.HighImpedanceLost` | waveform-analysis/src/waveform_analysis/strip.py:72-77 | a change to z is lost |

## Left out

- Console, file, FST and Verilator plumbing of `simulation/main.cpp` (`CharDev`, `TestDev`, `ByteDev`, tracing, argument parsing): I/O and foreign calls. The memory's inputs are an arbitrary request sequence.
- The Proteus core itself: its sources are not part of this model, so `io_axi_r_ready`, which `main.cpp:89` asserts, is taken to be set.
- SimulatorMemory.Memory.Eval: does not model the 64-bit wrap-around of the cycle number, which starts at 1; cycle 0 never occurs.
- The store log of `main.cpp:162-164`: output only.
- Kruskal.Kruskal: requires what the program needs of its caller, an odd `len` if it is 2 or more (the last edge would be read past the array otherwise), vertices below `len`, and disjoint arrays. Byte addresses are array indices.
- The static scalar temporaries of `Hacl_Chacha20.c` and `lowstar_endianness.h` are locals: each is written before it is read in every call. The static arrays are modelled as such.
- ChaCha20.Hacl.Update: text and output in one buffer are covered when the output starts at or before the text or behind it, and for up to 64 bytes anywhere; an output that starts strictly inside a longer text is not, since blocks would then overwrite text still to be read.
- The byte-swapping loads and stores for other widths and for big-endian machines: the same code again, not used by ChaCha20.
- StdinRing.Stdin.Isr: runs to completion, since interrupts do not nest on this target; the program is interruptible between any two of its loads and stores. A byte that finds no room stays in the device; that the device presents it again is left to the bursts, which are arbitrary.
- `rdinstret` and the 64-bit variants of `performance.c`: the first is `rdcycle` on another counter, the others are one instruction.
- CycleCounter.Rdcycle: the 64-bit counter does not wrap during the call.
- CycleCounter.Sleep: the counter eventually reaches the computed end time; without that `sleep` does not return.
- Raw pattern matching in `strip.py` and the name filters of `signal_extractor.py`: lines are already classified, and the filter is an arbitrary function. The first value of a scalar line is one character, as in IEEE 1364-2005 section 18.2.
- StripVcd.StripIdempotent: is about the lines of the output file; the warning printed for signals that were not found is left out.
- StripVcd.KeptExactly: is about headers, with or without blank lines, that have one `$timescale` at most, declarations of one line each, and no line of a section's text that begins with a keyword the tool looks for. The tool reads a declaration over several lines not at all, and a line of a comment that looks like a whole declaration as one. `$dumpvars` ends a header as `$enddefinitions` does, for the reader as for the tool.
- StripVcd.NamesKeptExactly: does not cover the single line whose value the tool misses; StripVcd.KeptExactlyInTime does.
- `get_high_rate`, `get_last_value`, loading of waveforms, logging and the counters of `check_all_combinations`: sums over results already modelled, or foreign code.
- WaveformCompare.SecurityChecker.SecureForAllInputs: an unknown policy name, which raises an exception before any comparison, is left out.
- The small linearised programs (`bsl`, `call`, `diamond`, `fork`, `ifthenloop`, `switch`, `triangle`), `sharevalue` and `twofish`: finite case splits, a plain sum, and large constant tables.
- `fstar_uint128_msvc.h`: compiler intrinsics. The native one-liners of `fstar_uint128_gcc64.h` are the arithmetic the limbs are compared with.
- Caches, pipelines, speculation and timing: correctness of results only.
