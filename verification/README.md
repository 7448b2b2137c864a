# Verified models of the simulator's core

This project restates ten parts of the RISC-V simulator in Dafny and proves what
each of them is for. Everything below is a theorem about the model; nothing in
it was executed.

* **Binary64 arithmetic** (`Powers`, `Bits`, `Arith`, `Binary64`, `Cells`, `Jam`,
  `MultiWord`, `EstimateDiv`, `RoundPack`, `Normalise`, `Ieee`, `AddSub`, `MulDiv`,
  `MulAdd`, `Rem`, `Convert`). The routines are modelled word by word: 64-bit words
  wrap where the C does, 128-bit values are pairs of words, rounding is done on jammed
  significands, and exception flags accumulate in an `FpEnv` object. Each is proved
  against a specification over `real`: the exact result, rounded once. `Binary64.Round`
  defines that rounding from nothing but the values of the 2^63 magnitudes, and lemmas
  show it to be what sections 4.3, 7.4, 7.5 and 7.6 of IEEE 754-2008 ask for: nearest
  with both tie rules, or tight on the side a directed mode asks for. `Ieee` adds the
  special operands, the sign of zero sums (section 6.3) and the default NaN.
* **Address translation** (`Mmu`): three tag arrays over one shared data array, the
  refill, the three-level walk, flushes, loads and stores.
* **Provenance tracking** (`Tracker`): a reference-counted graph on a heap with
  explicit frees, and the worklist that releases it.
* **The expression evaluator** (`ParseExpr`, `Precedence`, `Expressions`,
  `Acceptance`): the two-stack parser accepts exactly the texts of syntax trees, in any
  spacing, and returns their values.
* **The instruction index** (`Opcodes`): bucket count, sort, table and unbounded scan.
* **Hart scheduling and reservations** (`Scheduler`): a machine whose harts run
  arbitrary instructions on shared bytes of memory, with a ghost trace of everything
  that happened.
* **The cache simulator** (`CacheSim`, `CacheHierarchy`): both cache classes, and any
  acyclic hierarchy of them, with ghost histories of every access and what it led to.
* **Vector state save and restore** (`Hwacha`).
* **Streaming MD5** (`Md5`), around an arbitrary block function, against the one-shot
  definition in sections 3.1 to 3.5 of RFC 1321.

## How the model reads

Code that changes state is a `method`, in a `class` where the source has an object;
it is proved against a `function` of its inputs, and lemmas are proved about that
function. `x >> n` is division by a power of two, a mask of low bits is `%`, and other
bit operations use the recursive `And` and `Or` of `Bits`. Words are subset types with
every wrap-around written as `% W64` or `% W32`. A ghost parameter, such as `exact` of
`RoundPackToF64`, is the real number a word stands for: `SameCell(x, s, g)` says that x is
s, or that both lie strictly inside the same gap between multiples of g, which is all a
jammed word knows about x.

The shift primitives are wrong for some counts. `Jam.Shift64RightJamZero` says exactly
when a count of 0 goes wrong, and `Jam.ShortShift128LeftIs` does so for the 128-bit left
shift; the callers' proofs show that they never pass one, or (for the left shift) only
with a zero low word.

Where comments and code differ, the model follows the code. The cache simulator computes
its index shift with a loop that yields log2 of the line size plus one, so a set is
indexed by twice the line size: claims are made in terms of the shift
(`CacheSim.Construct`).

## Model

| member | source | states |
|---|---|---|
| Binary64.Fields | softfloat/internals.h:150-169 | The field macros take a word apart into sign, exponent and fraction, lose nothing, and classify NaN, infinity, finite and zero |
| Binary64.RoundExact | softfloat/s_roundPackToF64.c:57-60 | A representable magnitude rounds to itself in every mode, with no flag |
| Binary64.NearestIsClosest | softfloat/s_roundPackToF64.c:20-32 | In both nearest modes no binary64 magnitude is closer than the result, and ties go to the even one or to the larger one |
| Binary64.DirectedIsTight | softfloat/s_roundPackToF64.c:20-32 | A directed mode returns the largest magnitude not above, or the least not below, the exact one |
| Binary64.RoundMono | softfloat/s_roundPackToF64.c:19-60 | Rounding never reverses an order |
| RoundPack.RoundPackToF64 | softfloat/s_roundPackToF64.c:10-66 | For every sign, exponent and significand, and every mode, the result and flags are the one rounding of the exact value the jammed word stands for, subnormals and overflow included, with tininess before rounding |
| RoundPack.RoundMagAt | softfloat/s_roundPackToF64.c:57-60 | Adding the increment and clearing the tie bit is the specification's rounding, and the low ten bits are zero exactly when it is exact |
| RoundPack.ToSubnormal | softfloat/s_roundPackToF64.c:35-46 | Jamming the significand down to exponent 0 keeps the exact value in its rounding cell, and happens only below the least normal number |
| RoundPack.OverflowAt | softfloat/s_roundPackToF64.c:47-55 | The overflow branch is taken where rounding overflows, and yields infinity or the largest finite number as the mode asks |
| RoundPack.DeliverAt | softfloat/s_roundPackToF64.c:56-60 | In range, packing the rounded significand gives the specified word, underflow and inexact flags |
| Normalise.CountLeadingZeros64 | softfloat/s_countLeadingZeros64.c:6-32 | The count places the leading one, and is 64 for zero alone |
| Normalise.NormSubnormalF64Sig | softfloat/s_normSubnormalF64Sig.c:7-18 | The normalised significand and exponent have the subnormal's value |
| Normalise.NormRoundPackToF64 | softfloat/s_normRoundPackToF64.c:9-24 | Normalising, then packing or rounding, delivers the one rounding of the exact value |
| Normalise.ExactPack | softfloat/s_normRoundPackToF64.c:14-18 | The branch that packs without rounding is taken only for representable values, which it packs exactly |
| Normalise.UnpackNormal | softfloat/s_mulAddF64.c:64-78 | An operand's significand is brought to 53 bits without changing its value |
| Normalise.Representable | softfloat/f64_rem.c:98-101 | Every 53-bit integer times an in-range power of two is a binary64 value |
| Jam.Shift64RightJamIs | softfloat/s_shift64RightJam.c:6-15 | For every positive count the shift keeps in bit 0 exactly whether a one was lost |
| Jam.Shift64RightJamZero | softfloat/primitives.h:57 | With a count of 0 the shift is right if and only if the word is zero or odd |
| Jam.Shift64ExtraRightJam | softfloat/s_shift64ExtraRightJam.c:8-23 | For every positive count the bits that leave the word fill the fraction word from the top; what leaves that too, and any incoming fraction, survives as its bit 0 |
| Jam.Shift128RightJamIs | softfloat/s_shift128RightJam.c:7-31 | For every positive count the two-word shift is the sticky shift of the 128-bit number |
| Jam.ShortShift128LeftIs | softfloat/s_shortShift128Left.c:7-16 | When nothing leaves the top, the two-word left shift multiplies by 2^count if and only if the count is positive or the low word's bits are all in the high word |
| Jam.LeftByZero | softfloat/s_shortShift128Left.c:7-16 | With a count of 0 the low word is OR-ed into the high word |
| MultiWord.Add128 | softfloat/s_add128.c:7-17 | 128-bit sum modulo 2^128 |
| MultiWord.Sub128 | softfloat/s_sub128.c:7-17 | 128-bit difference modulo 2^128 |
| MultiWord.Mul64To128 | softfloat/s_mul64To128.c:6-28 | The two words reassemble to the exact product |
| MultiWord.Mul128By64To192 | softfloat/s_mul128By64To192.c:7-20 | The three words reassemble to the exact product |
| MultiWord.Mul128To256 | softfloat/s_mul128To256.c:7-28 | The four words reassemble to the exact product; no carry is lost |
| MultiWord.Mulhu | riscv/mulhi.h:6-25 | High word of the unsigned product |
| MultiWord.Mulh | riscv/mulhi.h:27-32 | Floor of the signed product over 2^64, for all inputs, the least integer included |
| MultiWord.Mulhsu | riscv/mulhi.h:34-39 | Floor of the signed by unsigned product over 2^64, for all inputs |
| EstimateDiv.EstimateDiv128To64 | softfloat/s_estimateDiv128To64.c:6-28 | Terminates with an estimate from the quotient to two above it, or all ones when the quotient overflows |
| Ieee.FmaByOneIsAdd | riscv/insns/fadd_d.h:3 | For all operands and modes, the fused multiply-add by 1.0 is addition, flags included |
| Ieee.FmaWithZeroIsMul | riscv/insns/fmul_d.h:3 | For all operands and modes, the fused multiply-add of a zero with the product's sign is multiplication, flags included |
| Ieee.AddCommutes | softfloat/f64_add.c:8-29 | Addition commutes for all operands and modes, flags and zero signs included |
| AddSub.F64Add | softfloat/f64_add.c:8-29 | For all words and modes the result and flags are those of the rounded exact sum, or of the special case |
| AddSub.F64Sub | softfloat/f64_sub.c:8-28 | Subtraction is the addition of the negated operand, for all words and modes |
| AddSub.AddMagsF64 | softfloat/s_addMagsF64.c:10-77 | Aligned addition of magnitudes with a sticky bit rounds like the exact sum |
| AddSub.SumOfAligned | softfloat/s_addMagsF64.c:50-63 | The smaller operand, jammed into place and added, lies in the normalising cell of the exact sum |
| AddSub.SubMagsF64 | softfloat/s_subMagsF64.c:11-81 | Aligned subtraction rounds like the exact difference, with the larger operand's sign, and signs exact zeros by the mode |
| AddSub.DifferenceOfAligned | softfloat/s_subMagsF64.c:52-72 | The smaller operand, jammed into place and taken away, leaves a word in the normalising cell of the exact difference |
| AddSub.DifferenceOfMagnitudes | softfloat/s_subMagsF64.c:23-73 | Which operand's sign the specification gives the difference, and which sign a zero |
| AddSub.PropagateNaNF64UI | softfloat/s_propagateNaNF64UI.c:18-25 | The default NaN, with invalid raised exactly for a signalling operand |
| MulDiv.F64Mul | softfloat/f64_mul.c:10-91 | For all words and modes the result and flags are those of the rounded exact product, or of the special case |
| MulDiv.F64Div | softfloat/f64_div.c:10-104 | For all words and modes the result and flags are those of the rounded exact quotient, or of the special case |
| MulDiv.FiniteQuotient | softfloat/f64_div.c:59-85 | Exponent and significand of the exact quotient, in the right rounding cell |
| MulDiv.QuotientDigits | softfloat/f64_div.c:69-86 | The significand found rounds like the true quotient; the correction loop stops at the exact floor with an exact sticky bit |
| MulDiv.EstimateSuffices | softfloat/f64_div.c:76-77 | Low nine bits above 2 put the estimate and the true quotient in one rounding cell |
| MulAdd.F64MulAdd | softfloat/f64_mulAdd.c:7-25 | For all words and modes the result and flags are those of a*b + c rounded once, or of the special case |
| MulAdd.SpecialMulAdd | softfloat/s_mulAddF64.c:46-75 | NaN, infinite and zero-product operands are exactly the ones settled early, each as specified |
| MulAdd.FiniteMulAdd | softfloat/s_mulAddF64.c:76-159 | A nonzero product plus any finite addend is rounded once, zero sums signed as specified |
| MulAdd.ExactProduct | softfloat/s_mulAddF64.c:64-83 | The two-word product, normalised, is exact |
| MulAdd.AddToProduct | softfloat/s_mulAddF64.c:96-159 | The aligned 128-bit sum or difference delivers the one rounding of the signed sum |
| MulAdd.AddSameSign | softfloat/s_mulAddF64.c:97-116 | With equal signs the jammed 64-bit significand lies in the rounding cell of the exact sum |
| MulAdd.AddOppositeSign | softfloat/s_mulAddF64.c:117-157 | With opposite signs it lies in the cell of the exact difference, takes the larger operand's sign, and cancels exactly when the operands are equal |
| MulAdd.NormaliseDifference | softfloat/s_mulAddF64.c:141-156 | After massive cancellation the shifts keep the value, with legal counts |
| MulAdd.FaddD | riscv/insns/fadd_d.h:1-4 | The instruction returns the sum that `F64Add` returns, under the instruction's rounding mode, and folds the flags into fflags |
| MulAdd.FmulD | riscv/insns/fmul_d.h:1-4 | The instruction returns the product that `F64Mul` returns, and folds the flags into fflags |
| Rem.F64Rem | softfloat/f64_rem.c:10-113 | For all words, the IEEE remainder: a less the multiple of b nearest it, ties to even; special operands as specified |
| Rem.Reduce | softfloat/f64_rem.c:60-100 | The loops terminate; the signed result is congruent to the scaled dividend and nearest zero, even quotient on ties |
| Rem.Centre | softfloat/f64_rem.c:87-100 | The do-while loop terminates, and the choice after it takes the remainder nearer zero, by the quotient's parity on a tie |
| Rem.RemainderExact | softfloat/f64_rem.c:99-101 | The specified remainder is representable: the rounding raises no flag and changes nothing, in every mode |
| Rem.RemainderRepresentable | softfloat/f64_rem.c:99-101 | The exact remainder is a binary64 magnitude |
| Rem.RemainderBounds | softfloat/f64_rem.c:87-100 | It is at most the dividend, and at most half the divisor |
| Rem.DividendIsRemainder | softfloat/f64_rem.c:63-66 | A dividend below half the divisor is returned unchanged |
| Convert.F64ToI64 | softfloat/f64_to_i64.c:9-46 | For every double and mode: the rounded integer when it fits, with inexact exactly when the value was not an integer and the caller asked, else the saturated integer with invalid |
| Convert.RoundPackToI64 | softfloat/s_roundPackToI64.c:8-52 | Rounds, negates, detects overflow of the two's-complement word and saturates |
| Convert.NearestIsNearest | softfloat/s_roundPackToI64.c:21-39 | The specified integer is the one nearest the signed value, ties to even |
| Convert.I64ToF64 | softfloat/i64_to_f64.c:8-21 | Every 64-bit integer is rounded once, the least one included |
| Convert.RoundTrip | softfloat/i64_to_f64.c:8-21 | Integers up to 2^53 in magnitude survive the trip to double and back, in any two modes, with no flag |
| Mmu.MmuPort.constructor | riscv/mmu.cc:7-12 | An mmu starts coherent, with nothing cached |
| Mmu.MmuPort.FlushTlb | riscv/mmu.cc:24-28 | After a flush the tags agree with any page tables |
| Mmu.MmuPort.SetStatus | riscv/processor.cc:294-307 | Changing the mode flushes, so the tags agree with the walk in the new mode |
| Mmu.MmuPort.SetPtbr | riscv/processor.cc:325-327 | A new page-table base does not flush; the tags still agree while translation is off |
| Mmu.MmuPort.Translate | riscv/mmu.h:326-340 | Hit or miss, the result is the translation the walk defines, and the tags stay in agreement |
| Mmu.MmuPort.RefillTlb | riscv/mmu.cc:49-82 | Returns the walk's translation or the fault, and all three tag arrays still agree through the one data array |
| Mmu.MmuPort.WriteEntry | riscv/mmu.cc:76-79 | An entry that agrees with the walk for each kind of access keeps all three tag arrays in agreement |
| Mmu.MmuPort.PageTableWalk | riscv/mmu.cc:84-133 | The loop computes the recursive walk, superpages and every fault included |
| Mmu.MmuPort.LoadBytes | riscv/mmu.h:51-58 | A load returns the bytes at the translated address or the fault |
| Mmu.MmuPort.StoreBytes | riscv/mmu.h:102-109 | A store changes just the translated bytes, and keeps agreement unless it hits a page-table entry behind a cached page |
| Mmu.WalkSamePage | riscv/mmu.cc:84-133 | The walk depends on the page number alone |
| Mmu.WalkInMemory | riscv/mmu.cc:107-126 | A granted entry maps a whole page of target memory |
| Mmu.TranslationInBounds | riscv/mmu.h:314-341 | Every translated access lies inside target memory |
| Mmu.HitTranslates | riscv/mmu.h:326-340 | What a hit computes with wrap-around is what the walk would give |
| Mmu.EntryIs | riscv/mmu.cc:71-79 | What the refill stores agrees with the walk for the whole page, whichever access caused it |
| Mmu.PermTests | riscv/mmu.cc:56-69 | The three permission tests of the refill are the per-access grants, in both modes |
| Mmu.LeafMeaning | riscv/mmu.cc:119-122 | OR-ing page bits into a superpage entry adds them to an aligned base and leaves the permission bits alone |
| Mmu.WalkFrame | riscv/mmu.cc:84-133 | A write apart from the entries a walk reads leaves that walk unchanged |
| Mmu.StoreKeepsTlb | riscv/mmu.h:102-109 | So it leaves every cached translation valid |
| Tracker.TrackerState.constructor | riscv/tracker.cc:16-28 | Starts with empty slots and an empty heap |
| Tracker.TrackerState.Cleanup | riscv/tracker.cc:181-197 | Terminates, never touches a freed node, and restores the exact counts after one reference is given up |
| Tracker.TrackerState.TrackLoad | riscv/tracker.cc:30-56 | A load makes one node from the memory word and address register and puts it in the destination; the counts stay exact |
| Tracker.TrackerState.TrackStore | riscv/tracker.cc:58-84 | A store makes one node and puts it in the memory word's slot; the counts stay exact |
| Tracker.TrackerState.Track | riscv/tracker.cc:86-156 | Any other instruction makes a node, or not, by its operands; the counts stay exact |
| Tracker.TrackerState.Build | riscv/tracker.cc:37-47 | A new node retains both its children and is the one node not yet counted |
| Tracker.TrackerState.ReplaceReg | riscv/tracker.cc:49-52 | The new node takes the register and the old one is released |
| Tracker.TrackerState.ReplaceMem | riscv/tracker.cc:76-79 | The new node takes the memory slot and the old one is released |
| Tracker.LiveIffReachable | riscv/tracker.cc:181-197 | With exact counts, the live nodes are exactly those reachable from the slots: no leak and no dangling link |
| Tracker.Decrement | riscv/tracker.cc:187-190 | Giving up a reference keeps every count exact, the node becoming due for release at zero |
| Tracker.Freed | riscv/tracker.cc:191-195 | Freeing a node nothing refers to turns its links into references still to be given up |
| Tracker.Allocated | riscv/tracker.cc:37-47 | Counts stay exact when a fresh chunk becomes a node |
| Tracker.Rooted | riscv/tracker.cc:49-52 | The slot is the new node's one reference |
| Expressions.ParseRender | riscv/interactive.cc:623-802 | For every expression tree and spacing, the parser applied to its text returns the tree's value, or the first error it meets; names may hold an inner '~', and outside parentheses a closing one |
| Acceptance.Converse | riscv/interactive.cc:623-802 | Whatever string the parser accepts is the text of such a tree |
| Acceptance.AcceptsExactly | riscv/interactive.cc:623-802 | The parser returns a value for a string if and only if the string is the text of a tree with that value |
| Acceptance.Rejects | riscv/interactive.cc:733-751 | From a second value, a stray unary operator or a terminator among the operators the parser never recovers |
| Acceptance.AcceptValue | riscv/interactive.cc:655-741 | Where a value must come, an accepted remainder is an expression |
| Acceptance.AcceptJoin | riscv/interactive.cc:743-801 | After a value, an accepted remainder is what follows the first operand of an expression |
| Acceptance.Nests | riscv/interactive.cc:676-685 | Text matched by parentheses has no name with a closing one |
| ParseExpr.ParseExpr | riscv/interactive.cc:623-802 | The routine terminates on every string and computes the step semantics |
| ParseExpr.Step | riscv/interactive.cc:650-795 | Every iteration keeps the stacks in balance and makes progress, though indices are revisited |
| ParseExpr.Operator | riscv/interactive.cc:743-794 | An operator moves on and keeps one more value than operators, then pushes |
| ParseExpr.Reduce | riscv/interactive.cc:761-791 | Applying stacked operators keeps one more value than operators, and at the end of the string leaves one value |
| ParseExpr.FindClose | riscv/interactive.cc:676-685 | The loop finds where the balance of parentheses first closes |
| ParseExpr.PopUnary | riscv/interactive.cc:707-732 | Unary operators apply innermost first |
| ParseExpr.PopOperators | riscv/interactive.cc:761-791 | The loop pops just the operators of at least the new one's priority |
| Precedence.RootSpec | riscv/interactive.cc:626-642 | The tree's root is the last of the operators that bind loosest, hence left association |
| Precedence.RootIs | riscv/interactive.cc:626-642 | That description picks the root uniquely |
| Precedence.MergeTop | riscv/interactive.cc:762-790 | Applying the top operator computes the value of the merged segment of the text |
| Precedence.PopMerged | riscv/interactive.cc:762-790 | Replacing two values by the result keeps each stack entry the value of its segment |
| Precedence.PushOperator | riscv/interactive.cc:761-793 | Operators left on the stack bind looser than all that follow them |
| Precedence.FirstError | riscv/interactive.cc:761-791 | The parser fails with the error a left-to-right evaluation of the tree meets first |
| Precedence.ReduceStack | riscv/interactive.cc:761-791 | Reduction as a whole keeps the segments' values, or fails as the tree does |
| Expressions.RunExpr | riscv/interactive.cc:650-801 | From any point between tokens the run finishes with the tree's value |
| Expressions.RunOperand | riscv/interactive.cc:655-741 | An operand's text, unaries and parentheses included, pushes its value |
| Expressions.RunUnaries | riscv/interactive.cc:655-665 | Leading unary operators are stacked in order, whatever the spacing |
| Expressions.RunParen | riscv/interactive.cc:670-696 | A parenthesised text is parsed on its own |
| Expressions.RunAtom | riscv/interactive.cc:698-741 | A name is read up to its delimiter and its value pushed |
| Expressions.MatchSkips | riscv/interactive.cc:676-685 | The search for the closing parenthesis skips balanced text |
| Expressions.NeutralFrom | riscv/interactive.cc:676-685 | The text of every expression is balanced |
| Opcodes.Decoder.RegisterInsn | riscv/processor.cc:465-469 | Appends the instruction, whose mask has bit 0 set |
| Opcodes.Decoder.CountBuckets | riscv/processor.cc:473-477 | The largest power of two whose low bits every mask covers; with nothing registered the count wraps to 0 |
| Opcodes.Decoder.BuildOpcodeMap | riscv/processor.cc:471-505 | The table indexes a permutation of the instructions, and decoding is possible exactly when one is registered |
| Opcodes.FillTable | riscv/processor.cc:490-504 | Each bucket points at its first entry, and every instruction is copied: the final assertion holds |
| Opcodes.SortSorts | riscv/processor.cc:479-488 | Sorted by bucket, then match, and a permutation |
| Opcodes.Decoder.DecodeInsn | riscv/processor.cc:454-463 | The unbounded scan stops, at the least-match registered instruction that fits, or at the illegal handler when none fits |
| Opcodes.FirstIsLeast | riscv/processor.cc:459-460 | The first entry to fit in the table has the least match of all that fit |
| Opcodes.OwnBucket | riscv/processor.cc:456-457 | An instruction fits only words of its own bucket |
| Opcodes.AndKeepsLow | riscv/processor.cc:474-476 | A mask that covers the low bits keeps them |
| Opcodes.NextBucket | riscv/processor.cc:494-499 | Passing a bucket leaves all of it behind and nothing else |
| Scheduler.Simulator.constructor | riscv/sim.cc:97-115 | Starts safe, at step 0 of hart 0 |
| Scheduler.Simulator.Step | riscv/sim.cc:97-115 | Whatever the harts run, the call ends, grants its n unit steps by position alone, and keeps every store-conditional justified; over the whole run, each event and each unit step is of the hart whose turn it was, and turns last INTERLEAVE steps |
| Scheduler.Simulator.Advance | riscv/sim.cc:101-111 | One grant runs the current hart, records its steps, and ends the turn exactly when it is full |
| Scheduler.RunInRotation | riscv/sim.cc:99-102 | Whatever the hart whose turn it is does, the turns stay in rotation |
| Scheduler.EndInRotation | riscv/sim.cc:105-110 | The end of a turn passes it to the next hart in rotation |
| Scheduler.Simulator.EndTurn | riscv/sim.cc:105-113 | The reservation is given up before the next hart runs |
| Scheduler.Simulator.ExecuteLr | riscv/insns/lr_w.h:1-3 | Reserves the address even if the load then traps; otherwise loads the bytes there, sign-extended from 4 |
| Scheduler.Simulator.ExecuteSc | riscv/insns/sc_w.h:1-7 | Unless it traps, writes 0 and stores its bytes if and only if the hart's last load-reserved was of that address, with no trap, no other hart and no end of turn since; else writes 1 and stores nothing |
| Scheduler.Simulator.TakeTrap | riscv/processor.cc:256 | A trap gives the reservation up |
| Scheduler.Simulator.RunHart | riscv/insns/sc_d.h:1-8 | A run of one hart is the events its instructions prescribe, ended by a trap, memory in step with them |
| Scheduler.ScIsAtomic | riscv/insns/sc_w.h:1-7 | Between a store-conditional that completes and the last load-reserved of its hart, which was of its address, no other hart ran; if its own hart wrote none of any n bytes there, they are as the load-reserved saw them |
| Scheduler.OpenNext | riscv/insns/lr_w.h:1 | An event leaves a reservation open exactly if it makes it, or is an ordinary event of its hart while it is open |
| Scheduler.LoadsWhatWasStored | riscv/insns/sc_d.h:4 | A doubleword stored is the doubleword loaded |
| Scheduler.GrantsSplit | riscv/sim.cc:97-115 | However a run is cut into calls, the same harts get the same unit steps |
| Scheduler.TurnSplit | riscv/sim.cc:97-115 | The position after two calls is that of one call of their sum |
| Scheduler.WholeTurns | riscv/sim.h:65 | Each turn is exactly INTERLEAVE unit steps of one hart, in rotation |
| CacheSim.NextNonzero | riscv/cachesim.h:13-21 | The shift register never reaches 0 from a nonzero state |
| CacheSim.Construct | riscv/cachesim.cc:24-61 | Succeeds exactly on powers of two with lines of 8 bytes or more, picks the class, and starts empty; the line size is 2^(shift - 1); the result can be used if and only if it has a way |
| CacheSim.IdxShift | riscv/cachesim.cc:47-49 | The loop's shift is one more than the logarithm of the line size |
| CacheSim.IdxShiftOfPower | riscv/cachesim.cc:47-49 | So for a line of 2^k bytes it is k + 1 |
| CacheSim.PowerTest | riscv/cachesim.cc:42-45 | Only powers of two pass the bit test |
| CacheSim.PowerPasses | riscv/cachesim.cc:42-45 | Every power of two passes it |
| CacheSim.CheckTag | riscv/cachesim.cc:127-137 | Finds the line if any set holds it, though one set is searched |
| CacheSim.Lookup | riscv/cachesim.cc:191-195 | Hits exactly on the lines held, in both classes |
| CacheSim.MarkDirty | riscv/cachesim.cc:161-162 | Adds one line to the dirty ones and changes no other |
| CacheSim.Victimize | riscv/cachesim.cc:139-146 | The new line replaces, clean, the victim the register chooses; nothing else moves; no line is held twice |
| CacheSim.VictimizeSet | riscv/cachesim.cc:139-146 | The way is the one the advanced register points at, in the line's own set |
| CacheSim.VictimizeAny | riscv/cachesim.cc:197-209 | A full cache advances the register and loses the line that as many smaller lines precede as the register says modulo the ways; any other loses none and leaves the register alone |
| CacheSim.Advance | riscv/cachesim.cc:202-203 | Advancing n places from the first key of an ordered map finds the key that exactly n others precede |
| CacheSim.ReplaceWord | riscv/cachesim.cc:139-146 | Replacing a word of the right set keeps every set's lines distinct and its own |
| CacheSim.ReplaceKey | riscv/cachesim.cc:197-209 | The same of the map of the fully associative class |
| CacheSim.DirtyAt | riscv/cachesim.cc:161-162 | Setting a dirty bit keeps the placement and adds the line to the dirty ones |
| CacheSim.EvictionCounts | riscv/cachesim.cc:168-171 | The count of dirty lines drops by one exactly when the victim was valid and dirty |
| CacheHierarchy.Hierarchy.constructor | riscv/cachesim.cc:24-38 | Clean caches in any acyclic hierarchy start with balanced accounts and empty histories |
| CacheHierarchy.Hierarchy.Trace | riscv/cachesim.cc:148-184 | After every access sequence, for each cache: its placement holds; its history leads step by step from its clean start to its present state and is exactly the visits that the outside accesses and the requests they led to made to it; writebacks plus dirty lines equal the history's stores that found their line not dirty; its reads and writes equal the outside ones plus upstream misses and writebacks |
| CacheHierarchy.Hierarchy.Access | riscv/cachesim.cc:148-184 | Answers the request with one visit: a hit that changes that cache alone, or a miss that replaces the chosen victim, writes it back to every handler if dirty and fetches the line from every handler, each request answered in turn; the histories grow by just these visits, and only this cache and those below change |
| CacheHierarchy.Hierarchy.Serve | riscv/cachesim.cc:155-184 | The access in the cache's own units: counted once, looked up, and hit or missed |
| CacheHierarchy.Conservation | riscv/cachesim.cc:148-184 | Over every history from a clean cache: accesses and misses counted are those that occurred, and writebacks plus dirty lines equal the stores that found their line not dirty |
| CacheHierarchy.VisitConserves | riscv/cachesim.cc:158-183 | One access raises writebacks plus dirty lines by one exactly when it is a store to a line not dirty |
| CacheHierarchy.Hierarchy.Miss | riscv/cachesim.cc:166-184 | The line has replaced the victim, the accounts balance again, and the requests made are, in order, the dirty victim's address to every handler and the line's base address to every handler |
| CacheHierarchy.Hierarchy.MakeRoom | riscv/cachesim.cc:166-177 | Evicts, and writes a dirty victim back |
| CacheHierarchy.Hierarchy.Evict | riscv/cachesim.cc:166-168 | Counts the miss, puts the line in the place of the victim, and leaves the accounts owing one fetch per handler |
| CacheHierarchy.Hierarchy.WriteBack | riscv/cachesim.cc:171-177 | Counts the writeback and delivers the victim's line address and size to every handler, in registration order |
| CacheHierarchy.Hierarchy.CallHandlers | riscv/cachesim.cc:174-180 | Each handler gets one request per registration, in order, with this address and size, and answers it through the whole hierarchy below |
| CacheHierarchy.Hierarchy.Soil | riscv/cachesim.cc:182-183 | A store adds its line to the dirty ones and changes nothing else |
| CacheHierarchy.PaidReads | riscv/cachesim.cc:179-180 | Reads delivered settle the misses that owed them |
| CacheHierarchy.PaidWrites | riscv/cachesim.cc:171-177 | Writes delivered settle the writebacks that owed them |
| Hwacha.VectorUnit.constructor | hwacha/hwacha.cc:9-33 | Reset state |
| Hwacha.VectorUnit.Vxcptsave | hwacha/insns/vxcptsave.h:1-44 | The area holds the state as it was, and everything is reset; with room and alignment it always succeeds |
| Hwacha.VectorUnit.SaveHeader | hwacha/insns/vxcptsave.h:16-22 | Writes the control fields where the restore reads them |
| Hwacha.VectorUnit.SaveXprRow | hwacha/insns/vxcptsave.h:24-28 | Appends one row of integer registers |
| Hwacha.VectorUnit.SaveFprRow | hwacha/insns/vxcptsave.h:30-34 | Appends one row of floating-point registers |
| Hwacha.VectorUnit.SaveRuns | hwacha/insns/vxcptsave.h:36-38 | Writes the run bits and spoils nothing before them |
| Hwacha.VectorUnit.Vxcptrestore | hwacha/insns/vxcptrestore.h:1-40 | From a saved area, brings back control state, active registers and run bits, and leaves the rest alone |
| Hwacha.VectorUnit.RestoreHeader | hwacha/insns/vxcptrestore.h:14-20 | Reads the control fields back |
| Hwacha.VectorUnit.RestoreXprRow | hwacha/insns/vxcptrestore.h:22-26 | Reads one integer row back, no other register changing |
| Hwacha.VectorUnit.RestoreFprRow | hwacha/insns/vxcptrestore.h:28-32 | Reads one floating-point row back, no other register changing |
| Hwacha.VectorUnit.RestoreRuns | hwacha/insns/vxcptrestore.h:34-36 | Reads the run bits back |
| Hwacha.VectorUnit.SaveAndRestore | hwacha/insns/vxcptsave.h:16-44 | Save then restore at one aligned address returns the control state and every active register and run bit, despite the kill between them |
| Hwacha.VectorUnit.Vxcptkill | hwacha/insns/vxcptkill.h:1-4 | Resets control state and every microthread |
| Hwacha.VectorUnit.Vsetcfg | hwacha/insns/vsetcfg.h:1-15 | Sets maxvl to the most microthreads, in whole banks, that the registers asked for allow; keeps vl <= maxvl <= max_uts |
| Hwacha.VectorUnit.Vsetvl | hwacha/insns/vsetvl.h:1-3 | Clamps vl to maxvl |
| Hwacha.BanksFilled | hwacha/insns/vsetcfg.h:10-13 | The division leaves no room for one more bank of microthreads |
| Hwacha.VectorUnit.ReadXpr | hwacha/decode_hwacha.h:32-37 | Registers beyond the configured ones have no value |
| Hwacha.VectorUnit.WriteXpr | hwacha/decode_hwacha.h:39-44 | Changes one register of one microthread, register 0 never |
| Hwacha.VectorUnit.ReadFpr | hwacha/decode_hwacha.h:52-57 | As for integer registers |
| Hwacha.VectorUnit.WriteFpr | hwacha/decode_hwacha.h:59-64 | As for integer registers, register 0 included |
| Md5.Context.constructor | test/full-programs/md5/md5.c:199-208 | Starts as the digest of nothing |
| Md5.Context.Body | test/full-programs/md5/md5.c:92-197 | Folds the block function over one or more blocks |
| Md5.Context.Update | test/full-programs/md5/md5.c:210-242 | Appends to the message: state, buffered tail and both length words stay those of the whole message |
| Md5.Context.Count | test/full-programs/md5/md5.c:215-220 | The split counter counts the new bytes, and the old one tells how full the buffer is |
| Md5.Context.TopUp | test/full-programs/md5/md5.c:222-234 | Completes the buffered block and processes it |
| Md5.Context.Absorb | test/full-programs/md5/md5.c:236-241 | Processes whole blocks and buffers the tail |
| Md5.Context.Final | test/full-programs/md5/md5.c:244-308 | Returns the one-shot digest of the message, in either padding case |
| Md5.Context.ZeroBlock | test/full-programs/md5/md5.c:254-259 | With no room for the length, the first padding block |
| Md5.Context.LastBlock | test/full-programs/md5/md5.c:261-273 | The block that carries the length |
| Md5.Context.PutLength | test/full-programs/md5/md5.c:263-271 | Both length words, low bytes first |
| Md5.DigestPieces | test/full-programs/md5/md5.c:210-273 | However a message is cut into updates, the digest is that of the whole |
| Md5.CounterStep | test/full-programs/md5/md5.c:215-218 | The split counter with its carry holds the byte count modulo 2^61 |
| Md5.BitCount | test/full-programs/md5/md5.c:263-263 | The shifted low word and the high word are the bit count modulo 2^64 |
| Md5.FoldConcat | test/full-programs/md5/md5.c:92-197 | Folding a concatenation is folding one part after the other |
| Md5.PadSizes | test/full-programs/md5/md5.c:248-261 | Both padding cases pad to 56 modulo 64 |
| Md5.PaddedIs | test/full-programs/md5/md5.c:244-273 | What the two cases process is the padded message of sections 3.1 and 3.2 of RFC 1321 |

## Left out

- MulAdd.F64MulAdd: models the fused multiply-add for op 0 only, which is all that its caller passes.
- Mmu.MmuPort.SetPtbr: says nothing of tags that go stale when the base changes under translation; flushing then is software's duty.
- Mmu.MmuPort.StoreBytes: after a store to a page-table entry behind a cached page agreement is not claimed, for the same reason.
- Mmu.MmuPort.Translate: the page of host functions that the source intercepts before the TLB is not part of this model.
- Mmu.MmuPort.FlushTlb: the instruction cache, which the source flushes along with the tags, is not part of this model.
- Mmu.MmuPort.constructor: a port without a processor is a supervisor's with translation off.
- Scheduler.Simulator.Step: the instructions a hart runs in a turn are any finite list; the unrolled dispatch, its step counting, timer and hart reset are not part of this model.
- Scheduler.Simulator.ExecuteLr: tags are not modelled, and addresses index memory directly: translation is the subject of Mmu and enters only as a refusal.
- Scheduler.Simulator.ExecuteSc: the same; the check that 64-bit instructions are enabled is one of the causes of Raise.
- Scheduler.Simulator.TakeTrap: models the reservation alone, not the status, cause and program counter registers.
- CacheSim.Construct: the configuration string is taken as parsed.
- CacheHierarchy.Hierarchy.constructor: the limit of 16 handlers, 64-bit wrap of the counters, reset, copying and printing are left out.
- Tracker.TrackerState.Track: the disassembler's operand table and the allocator are parameters (the operand list, a fresh address); the host's int width of the counts is not modelled, nor printing; an uninitialised flag is taken as false.
- ParseExpr.ParseExpr: the value of a name and a memory load are parameters; division by zero and shifts of 64 or more, undefined in C++, are reported as such.
- Opcodes.SortSorts: the library sort is modelled as an insertion sort; only its result's order and contents are used.
- Hwacha.VectorUnit.Vxcptsave: memory is flat, so page translation and partial faults within an access are not modelled, nor is the delivery of the exceptions.
- Hwacha.VectorUnit.Vxcptrestore: from memory that no save wrote nothing is claimed.
- Hwacha.VectorUnit.SaveAndRestore: the precision field is not saved by the source; it comes back as the kill leaves it, 64.
- Md5.Context.Body: the 64 rounds are an abstract block function.
- Md5.Context.Final: the final wipe of the context is not modelled.
- NaN payloads: this build returns the default NaN.
- Square root: rests on a bound of its estimate table, a table check.
- Binary32 twins of the routines: the same arguments with smaller constants.
- Comparison, min, max and the other conversions: easy consequences of the encoding.
- The libspike magic page, memory tracers, watch locations, tags and the instruction cache: host-side effects, or one-line definitions.
- HTIF, the command loop, the debugger's other commands and disassembly: input and output.
- The other vector instructions and 16-bit conversion: small domains, tables.
