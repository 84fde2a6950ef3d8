# A verified model of hmpc

hmpc is a library for secure multi-party computation in C++ and Rust. This project models the parts of it whose
correctness is not local, and proves what they promise. It verifies with Dafny 4.11:

    dafny verify --resource-limit 2000000 --verification-time-limit 0 --warn-contradictory-assumptions dfyconfig.toml

## What is modelled

**Numbers in limbs** (`Words`, `Spans`, `Chains`, `Shifts`, `Multiplication`, `Division`, `Euclid`, `Numeric`,
`NormalWrites`, `ModulusConstants`).
A span is a view of an array of limbs below a symbolic power of two, so every result holds for every limb width.
The operations are methods that change these arrays in place; each is proved to compute a number, not a sequence of
limbs, and the aliasing that the code relies on (a result in the storage of an operand, a remainder over its
numerator) is part of every contract. Division ends in `Numeric.Divide`: quotient times divisor plus remainder is
the numerator. The loops cut their results at whole limbs; `NormalWrites` adds the mask with which a normal span is
written, so that results are cut at the bits of the span.

**Residues** (`Montgomery`, `Residues`, `ResidueBuffers`, `ResidueRing`). A residue is stored as its product with an
auxiliary modulus. Every operation is proved on stored forms, again on the buffers, and related to plain arithmetic
modulo n, on which the next two parts build.

**The transform** (`BitReversal`, `RootsOfUnity`, `Rings`, `Transform`, `TransformKernels`, `TransformExpressions`,
`Encryption`). `Transform` gives the stages on one vector, what they compute (values at the roots of X^N + 1) and
that the two directions are inverse. `TransformKernels` holds the kernels on a transposed batch, whose work-items
may run in any order, and proves them equal to the stages vector by vector. `TransformExpressions` justifies leaving
out adjacent pairs of transforms. `Encryption` puts everything together: decryption undoes encryption while the
noise is small.

**Planning** (`Planning`, `Execution`). Which sub-expressions of a group get a tensor, in which order they are
computed, and that this gives the values of direct evaluation.

**The network** (`MessageKinds`, `Metadata`, `MessageBuffers`, `Collectives`, `CollectivePairing`,
`ConsistencyChecks`, `ConsistencyRun`, `ConsistencyHistories`, `ConsistencyAgreement`, `CheckMessages`,
`CheckedDelivery`, `CollectiveConsistency`). Collectives compute matching message ids at every party; the message
buffer pairs requests with arrivals; the consistency checks make sure that the receivers of a broadcast recorded the
same hash. That a caller gets contents with the recorded hash is a property of the checks and the message buffer
together: `CheckedDelivery.RecordedIff` says exactly when it holds.
`ConsistencyAgreement.Agreement` is about all runs of all parties: the sender, the network and every party outside
a set of honest ones do what they like, except that a check which names an honest party as its forwarder was sent
by that party before (its outer signature covers the contents and is verified with the key of the forwarder,
`hmpc-rs/src/net.rs:376-388`). `CollectiveConsistency.ReceiversAgree` joins this with the collectives, whose
requests meet its conditions, and `CollectiveConsistency.CallersAgree` with the contents that the callers get.

## Where the code falls short of what it promises

- Planning computes wrong values when a root occurs inside an earlier root and is not stored there, the case of the
  TODO at `hmpc/expr/cache.hpp:202`. `Planning.OrderedIff`, `Execution.PlanIsCorrect` and
  `Execution.OutOfOrderIsWrong` together say exactly when: the plan is right for every meaning of the operators if
  and only if no root that is computed in place occurs in a root before its first appearance.
  `Execution.LateOperand` is the smallest example.
- Division with an empty quotient span (as `operator%` uses it, `hmpc/ints/bigint.hpp:121-128`) writes a quotient
  limb that is not there when a step needs a second one. `Division.DivisionHasRoom` is a condition on the two numbers
  and the limb count of the quotient span, and `Division.DivisionRoomIff` proves it exact: it holds if and only if no
  step writes the lowest limb of a span without limbs. Every span that holds the quotient has room
  (`Division.RoomForTrueQuotient`). `ModulusConstants.SquareWithoutRoom` gives a modulus for which the library forms
  such a division itself, R squared modulo n at `hmpc/ints/mod.hpp:117`; with 64-bit limbs it is 2^128 - 2^96 + 1.
- The checker keeps the hash of the first data message of a key, the message buffer hands out the last message that
  came before the request, and the key of a check names neither receiver nor size. A sender that sends a party two
  messages passes the check while the caller gets contents that nobody compared
  (`CheckedDelivery.SecondMessageHandedOut`). Callers get the recorded contents in every order if and only if all
  messages of the key that reach the party have one hash (`CheckedDelivery.RecordedIff`).
- A check that comes from outside the receivers of a request, before the request, makes the request ineffective for
  good (`ConsistencyHistories.AcceptedIff`, `ConsistencyHistories.RejectedForGood`), and later waits do not see it:
  they are answered although the check never finished (`ConsistencyHistories.WaitIgnoresRejected`, with the shortest
  run in `ConsistencyHistories.RejectedThenAnswered`). Only asking again helps
  (`ConsistencyHistories.SecondRequestAcceptedIff`). The guarantees about waiting therefore speak of accepted requests.

## Model

| member | source | states |
|---|---|---|
| Words.ExtendedAdd | hmpc/core/add.hpp:120-170 | sum plus carry-out times the base is left plus right plus carry, for every pair of limbs |
| Words.SubtractWithBorrow | hmpc/core/subtract.hpp:61-147 | difference minus borrow-out times the base is left minus right minus borrow |
| Words.ExtendedMultiply | hmpc/core/multiply.hpp:72-145 | the two result limbs are exactly the product |
| Words.ExtendedMultiplyAdd | hmpc/core/multiply.hpp:148-157 | a product plus two limbs always fits two limbs, and these are they |
| Words.MultiplyAdd | hmpc/core/multiply.hpp:159-164 | the same, reduced to one limb |
| Words.ClampedDivide | hmpc/core/divide.hpp:9-25 | the two-limb quotient, or the largest limb when it does not fit one limb |
| Chains.Add | hmpc/core/num/add.hpp:12-33 | for any three sizes and with the result in the storage of an operand, result and carry are the sum of the operands cut to the result, and nothing outside the result changes |
| Chains.SumFits | hmpc/core/num/add.hpp:12-33 | a sum that fits the result has no carry and is exact |
| Chains.Subtract | hmpc/core/num/subtract.hpp:12-33 | result and borrow are the difference of the operands cut to the result, also in place |
| Chains.DifferenceFits | hmpc/core/num/subtract.hpp:12-33 | the borrow says exactly whether the left operand was smaller, and without it the difference is exact |
| Chains.BitCopy | hmpc/core/num/bit_copy.hpp:11-27 | the value, zero-extended or cut to the size of the result |
| Chains.Select | hmpc/core/num/select.hpp:11-17 | one of the two values, cut to the result |
| Chains.Compare | hmpc/core/num/compare.hpp:118-134 | the loop that stops at the first different limb decides the order of the two numbers |
| Chains.CompareFold | hmpc/core/num/compare.hpp:40-100 | so does the fold that visits every limb |
| Chains.EqualTo | hmpc/core/num/compare.hpp:102-116 | equality of limbs, the shorter operand extended by zeros, is equality of numbers |
| Shifts.BitWidthOf | hmpc/core/num/bit_width.hpp:44-56 | the least width that holds the number |
| Shifts.BitWidthFold | hmpc/core/num/bit_width.hpp:15-42 | the fold over all limbs computes the same width |
| Shifts.CountTrailingZeros | hmpc/core/num/countr_zero.hpp:36-48 | the exponent of two in the number, and the full size for zero |
| Shifts.ShiftLeft | hmpc/core/num/shift_left.hpp:53-82 | multiplication by a power of two, cut to the result |
| Shifts.ShiftRight | hmpc/core/num/shift_right.hpp:37-57 | division by a power of two, cut to the result, also when result and operand share storage |
| Multiplication.MultiplyRow | hmpc/core/num/multiply.hpp:51-91 | one row adds one limb times the left operand at its place, although the first row writes limbs that were never initialised |
| Multiplication.Multiply | hmpc/core/num/multiply.hpp:17-101 | the product modulo the result's size, for all limb counts, from an uninitialised intermediate buffer |
| Multiplication.MultiplyCompiletime | hmpc/core/num/multiply.hpp:103-153 | the same for the variant that starts from a zeroed buffer |
| Division.EstimateIsClose | hmpc/core/num/divide.hpp:56-71 | for a divisor with its top bit set, the clamped quotient of the top two limbs by the top limb is at least the true digit and at most two above it |
| Division.DivideSimilarSized | hmpc/core/num/divide.hpp:20-76 | quotient and remainder of a numerator with at most one limb more than the divisor, through both branches, with the remainder in the storage of the numerator |
| Division.DivideNormalized | hmpc/core/num/divide.hpp:81-135 | the recursion over the limbs of the numerator: ends, leaves quotient and remainder in their spans, and makes exactly the steps of `Division.Steps` |
| Division.Divide | hmpc/core/num/divide.hpp:137-167 | quotient and remainder for every numerator and every divisor but zero, with or without a quotient or a remainder span, also when the remainder replaces the numerator |
| Division.RoomForTrueQuotient | hmpc/core/num/divide.hpp:46-52 | a quotient span that holds the true quotient always has the room that the division needs |
| Division.RoomIff | hmpc/core/num/divide.hpp:81-135 | for a divisor with its top bit set and any quotient span: the numerator never reaches, below its multiples of the divisor one place higher, the divisor at a place beyond the span without having a limb more, if and only if no step of the recursion writes the lowest limb of a span without limbs |
| Division.DivisionRoomIff | hmpc/core/num/divide.hpp:46-52 | the same for every divisor, after the shift that normalises it |
| Division.EmptyQuotientRoomIff | hmpc/core/num/divide.hpp:38-52 | with an empty quotient span, and a numerator below the normalised divisor two places higher, the division fails exactly on the numerators from the divisor one place higher to the last one with one limb more than the divisor |
| ModulusConstants.SquareRoomIff | hmpc/ints/mod.hpp:114-117 | for which odd moduli of two limbs with the top bit set R squared modulo n is computed: r * r, with r the remainder of R, is below n one place higher or has four limbs |
| ModulusConstants.SquareWithoutRoom | hmpc/ints/mod.hpp:114-117 | for every even limb width there is such a modulus for which it is not: b^4 - b^3 + 1, with b the square root of the base |
| Numeric.Divide | hmpc/ints/numeric.hpp:55-62 | numerator equals quotient times divisor plus remainder, and the remainder is smaller than the divisor |
| Numeric.GreatestCommonDivisor | hmpc/ints/numeric.hpp:64-70 | the greatest common divisor, which always fits the larger of the two sizes |
| Numeric.InvertModulo | hmpc/ints/numeric.hpp:72-81 | the inverse modulo the second number, in unsigned range |
| NormalWrites.MaskTop | hmpc/core/compiletime_bit_span.hpp:151-164 | the mask of the top limb reduces the number of a span modulo its bits and makes the span normal |
| NormalWrites.AddNormal | hmpc/core/num/add.hpp:12-33 | a sum written to a normal span is cut at its bits, while the carry is that of the limbs |
| NormalWrites.SubtractNormal | hmpc/core/num/subtract.hpp:12-33 | so is a difference |
| NormalWrites.BitCopyNormal | hmpc/core/num/bit_copy.hpp:11-27 | so is a copy |
| NormalWrites.SelectNormal | hmpc/core/num/select.hpp:11-17 | so is a selected value |
| NormalWrites.ShiftLeftNormal | hmpc/core/num/shift_left.hpp:53-82 | so is a product with a power of two |
| NormalWrites.ShiftRightNormal | hmpc/core/num/shift_right.hpp:37-57 | so is a quotient by a power of two |
| NormalWrites.MultiplyNormal | hmpc/core/num/multiply.hpp:17-101 | so is a product |
| NormalWrites.MultiplyCompiletimeNormal | hmpc/core/num/multiply.hpp:103-153 | so is the product of the variant with a zeroed buffer |
| NormalWrites.GreatestCommonDivisorNormal | hmpc/core/num/greatest_common_divisor.hpp:17-61 | so is a greatest common divisor |
| Divisibility.GcdIsGreatest | hmpc/core/num/greatest_common_divisor.hpp:17-19 | what the specification means: a common divisor that every common divisor divides |
| Euclid.BinaryStep | hmpc/core/num/greatest_common_divisor.hpp:47-57 | subtracting the smaller of two odd numbers and dropping the factors of two keeps the greatest common divisor and makes the sum smaller |
| Euclid.GreatestCommonDivisor | hmpc/core/num/greatest_common_divisor.hpp:17-61 | the binary algorithm returns the greatest common divisor of any two numbers, zero included, cut to the result |
| Euclid.ExtendedIsBezout | hmpc/core/num/greatest_common_divisor.hpp:68-131 | the unsigned cofactors stay within the operands, and each gives the greatest common divisor modulo the other operand, whichever parity the algorithm ends with |
| Euclid.ExtendedEuclidean | hmpc/core/num/greatest_common_divisor.hpp:66-131 | the loop over exchanged buffers, with the remainder written over the numerator, computes exactly these three numbers; between two operands without limbs all three results are zero |
| Montgomery.RoundsInvariant | hmpc/core/num/modulo.hpp:43-61 | after i rounds the lowest i limbs are zero and the number has changed by a bounded multiple of the modulus |
| Montgomery.ReduceCorrect | hmpc/core/num/modulo.hpp:30-66 | for every input below R times the modulus, the reduced number is below the modulus and R times it is congruent to the input |
| Montgomery.ReduceRounds | hmpc/core/num/modulo.hpp:43-61 | the nested loops over the buffer of r + p + 1 limbs never lose a carry |
| Montgomery.MontgomeryReduce | hmpc/core/num/modulo.hpp:30-66 | the result span gets the reduced number, one masked subtraction being enough |
| Residues.NegatedInverseCorrect | hmpc/ints/mod.hpp:98-103 | the precomputed limb times the modulus is minus one modulo the base |
| Residues.RepresentsUnique | hmpc/ints/mod.hpp:321-321 | two stored forms are equal exactly when the residues are |
| Residues.PlusRepresents | hmpc/ints/mod.hpp:17-34 | addition of stored forms is addition of residues |
| Residues.MinusRepresents | hmpc/ints/mod.hpp:35-40 | subtraction of stored forms is subtraction of residues |
| Residues.NegateRepresents | hmpc/ints/mod.hpp:327-341 | negation of a stored form is negation of the residue, zero included |
| Residues.TimesRepresents | hmpc/ints/mod.hpp:41-46 | the reduced product of stored forms stores the product of residues |
| Residues.UnsignedIsResidue | hmpc/ints/mod.hpp:356-361 | reading a stored form back gives the least residue |
| Residues.SignedIsCentred | hmpc/ints/mod.hpp:363-378 | the signed value is the same residue in the centred range |
| Residues.FromUnsignedRepresents | hmpc/ints/mod.hpp:161-204 | a number of any width is stored as its residue, through either of the two reduction branches |
| Residues.UnsignedRoundTrip | hmpc/ints/mod.hpp:161-204 | storing and reading back reduces modulo the modulus |
| Residues.FromSignedRepresents | hmpc/ints/mod.hpp:217-253 | a signed number of any width is stored as its residue, in both constructors |
| Residues.SignedRoundTrip | hmpc/ints/mod.hpp:217-253 | the signed value of a stored form is stored as the same form |
| Residues.FromOtherRepresents | hmpc/ints/mod.hpp:255-307 | changing the modulus keeps the centred value, whichever modulus is larger |
| Residues.InvertRepresents | hmpc/ints/mod.hpp:343-354 | the stored inverse is the inverse of the residue |
| Residues.PowFixed | hmpc/ints/mod.hpp:381-407 | the power with an exponent known beforehand |
| Residues.PowAny | hmpc/ints/mod.hpp:409-434 | the power with an exponent of any width, bit by bit |
| ResidueBuffers.AddResidues | hmpc/ints/mod.hpp:17-34 | addition on buffers, in both cases for the limb count of the sum, also in place |
| ResidueBuffers.SubtractResidues | hmpc/ints/mod.hpp:35-40 | subtraction on buffers with the masked correction |
| ResidueBuffers.NegateResidue | hmpc/ints/mod.hpp:327-341 | negation on buffers |
| ResidueBuffers.MultiplyResidues | hmpc/ints/mod.hpp:41-46 | product and reduction on buffers |
| ResidueBuffers.ToUnsigned | hmpc/ints/mod.hpp:356-361 | reading back on buffers |
| ResidueBuffers.StoreUnsigned | hmpc/ints/mod.hpp:161-189 | both reduction branches of the constructor on buffers |
| ResidueBuffers.InvertResidue | hmpc/ints/mod.hpp:343-354 | inversion on buffers, through the extended algorithm and the cubed auxiliary modulus |
| ResidueRing.SumsAreRingSums | hmpc/ints/mod.hpp:17-40 | sums and differences of stored forms are those of the ring that the transform computes in |
| ResidueRing.ProductsAreRingProducts | hmpc/ints/mod.hpp:41-46 | so are products |
| ResidueRing.ConversionIsCast | hmpc/ints/mod.hpp:255-307 | changing the modulus is the cast of encryption and decryption |
| BitReversal.ReverseInvolution | hmpc/detail/utility.hpp:61-112 | reversing twice gives the index back, so every table entry is written once |
| BitReversal.SwapDoubles | hmpc/detail/utility.hpp:67-98 | one masked swap of neighbouring groups turns reversed groups into reversed groups of twice the size |
| BitReversal.BitReversePowerOfTwo | hmpc/detail/utility.hpp:61-98 | the overloads for 2, 4, 8, 16 and 32 bits reverse the bits |
| BitReversal.BitReverse | hmpc/detail/utility.hpp:100-112 | so does the overload for any other width |
| RootsOfUnity.RootTest | hmpc/ints/num/theory/root_of_unity.hpp:9-17 | modulo an odd prime the test accepts exactly the roots of X^N + 1 |
| RootsOfUnity.ParametersExist | hmpc/expr/number_theoretic_transform.hpp:22-33 | a root that passes the test, and N, have the inverses that the transform uses |
| Transform.ForwardEvaluates | hmpc/expr/number_theoretic_transform.hpp:144-197 | position k of the forward transform is the input polynomial evaluated at the root to the power 2 * bitrev(k) + 1 |
| Transform.StageUndone | hmpc/expr/number_theoretic_transform.hpp:93-139 | an inverse stage undoes the forward stage up to a factor of two |
| Transform.InverseOfForward | hmpc/expr/number_theoretic_transform.hpp:579-583 | the inverse transform of the forward transform is the input |
| Transform.ForwardOfInverse | hmpc/expr/number_theoretic_transform.hpp:558-562 | and the other way round |
| Transform.ForwardOfProduct | hmpc/expr/number_theoretic_transform.hpp:262-393 | the transform turns the product modulo X^N + 1 into the pointwise product |
| Transform.TransformMultiplies | hmpc/expr/number_theoretic_transform.hpp:262-549 | transforming, multiplying pointwise and transforming back multiplies modulo X^N + 1 |
| TransformKernels.GetRoots | hmpc/expr/number_theoretic_transform.hpp:49-88 | the table holds the powers of the root in bit-reversed order, with 1/N folded into the two entries of the last inverse stage and nowhere else |
| TransformKernels.ItemsDisjoint | hmpc/expr/number_theoretic_transform.hpp:100-138 | different work-items of a stage touch different elements of the batch buffer |
| TransformKernels.ItemsCover | hmpc/expr/number_theoretic_transform.hpp:100-138 | together they touch every element |
| TransformKernels.ForwardFirst | hmpc/expr/number_theoretic_transform.hpp:270-335 | the first kernel, in any order of its work-items, makes one stage of every vector and transposes the batch |
| TransformKernels.ForwardInner | hmpc/expr/number_theoretic_transform.hpp:144-197 | an inner kernel makes one stage of every vector in place |
| TransformKernels.ForwardLast | hmpc/expr/number_theoretic_transform.hpp:339-392 | the last kernel makes the last stage and transposes back |
| TransformKernels.InverseFirst | hmpc/expr/number_theoretic_transform.hpp:427-494 | the first inverse kernel |
| TransformKernels.InverseInner | hmpc/expr/number_theoretic_transform.hpp:90-142 | an inner inverse kernel in place |
| TransformKernels.InverseLast | hmpc/expr/number_theoretic_transform.hpp:498-548 | the last inverse kernel, which also divides by N through the folded factors |
| TransformKernels.ForwardTransform | hmpc/expr/number_theoretic_transform.hpp:262-393 | on every batch and for every order of the work-items, each vector of the result is the transform of the vector of the input |
| TransformKernels.InverseTransform | hmpc/expr/number_theoretic_transform.hpp:419-549 | the same for the inverse |
| TransformExpressions.TransformMeaning | hmpc/expr/number_theoretic_transform.hpp:552-571 | the expression that is built stands for the transforms of its argument, where an inverse is cancelled and in tuples too |
| TransformExpressions.InverseTransformMeaning | hmpc/expr/number_theoretic_transform.hpp:573-592 | the same for the inverse |
| TransformExpressions.TupleVectors | hmpc/expr/number_theoretic_transform.hpp:552-592 | a tuple stands for the vectors of its parts, in order |
| Encryption.ForwardOfCombine | hmpc/expr/number_theoretic_transform.hpp:262-393 | the transform is linear |
| Encryption.DecryptedTransform | hmpc/expr/crypto/lhe/dec.hpp:29-31 | c0 - s * c1 is the transform of the message plus p times the noise, when the key satisfies a == b * s + p * e |
| Encryption.DecOfEnc | hmpc/expr/crypto/lhe/enc.hpp:19-69 | decryption undoes encryption whenever every coefficient of the centred message with its noise is below q / 2 in absolute value, for both representations of the plaintext |
| Planning.TracesAreUses | hmpc/expr/cache.hpp:87-165 | the traces of an expression are exactly its uses by expressions that may be kept |
| Planning.InlinedMeansOneUse | hmpc/expr/cache.hpp:167-208 | an expression is computed in place if and only if it is not complex, exactly one chain of operands leads to it from an expression that may be kept past others that may not, and no operand on it is accessed more than once |
| Planning.MultipleIsPlanned | hmpc/expr/cache.hpp:167-171 | an operand that is accessed more than once always gets a tensor, if it may be kept |
| Planning.PlannedIff | hmpc/expr/cache.hpp:173-253 | the plan holds exactly the expressions asked for, with a cache around those that may not be kept, and what occurs in them and is complex or not used exactly once element by element |
| Planning.PlanContents | hmpc/expr/cache.hpp:173-245 | the plan holds nothing twice, holds exactly the roots and the stored expressions that occur in them, and every planned expression follows the stored ones in it |
| Planning.ComplexIsPlanned | hmpc/expr/cache.hpp:198-212 | a complex expression is never computed in place |
| Planning.OrderedIff | hmpc/expr/cache.hpp:200-204 | every planned expression follows all planned expressions in it if and only if no root that is computed in place occurs in a root before its first appearance |
| Execution.Execute | hmpc/comp/queue.hpp:481-484 | running the plan writes every tensor once, in order, from the tensors of the step before |
| Execution.OrderedRunIsDirect | hmpc/comp/queue.hpp:292-330 | along an ordered plan every tensor gets the value of direct evaluation |
| Execution.PlanIsCorrect | hmpc/expr/cache.hpp:248-253 | when the roots are in order, every root gets the value of its direct evaluation, for every meaning of the operators and whatever the tensors held |
| Execution.OutOfOrderIsWrong | hmpc/expr/cache.hpp:202-203 | when they are not, some root gets a wrong value for some meaning of the operators |
| Execution.LateOperand | hmpc/expr/cache.hpp:202-203 | the smallest input for which this happens, and the order of the roots that avoids it |
| ConsistencyChecks.CheckValue.Register | hmpc-rs/src/net/consistency.rs:73-96 | which request is accepted, which error a rejected one gets, and that it stays unregistered with the receivers restricted |
| ConsistencyChecks.CheckValue.Receive | hmpc-rs/src/net/consistency.rs:98-123 | which check is taken, and which error the others get |
| ConsistencyChecks.CheckValue.ReceiveData | hmpc-rs/src/net/consistency.rs:125-134 | data is taken once |
| ConsistencyChecks.CheckValue.Check | hmpc-rs/src/net/consistency.rs:136-219 | in any order of the visit: checks are taken off when all come from a known sender with a signature that verifies and the recorded hash, and nothing changes otherwise; the error is that of some check that fails one of the three |
| ConsistencyRun.Checker.NotifyParties | hmpc-rs/src/net/consistency.rs:222-256 | every receiver is sent the recorded data once at most, and exactly once when all can be reached |
| ConsistencyRun.Checker.Handle | hmpc-rs/src/net/consistency.rs:283-455 | one round of the loop is one step of the specification: new entries, answers and messages |
| ConsistencyRun.Run | hmpc-rs/src/net/consistency.rs:274-456 | the whole loop is the run of the specification; what it sent is, command by command, the notification of the command to the receivers that could be reached, each once; who was answered and who still waits are those who asked to wait |
| ConsistencyRun.NobodyIsLost | hmpc-rs/src/net/consistency.rs:263-272 | in every run, those who asked to wait are, in order, those who were answered followed by those who still wait |
| ConsistencyRun.AllAnswered | hmpc-rs/src/net/consistency.rs:428-432 | a command after which no check is registered answers all who waited, and itself if it waits |
| ConsistencyRun.WaitersHaveReason | hmpc-rs/src/net/consistency.rs:438-453 | in every reachable state, whoever waits waits for a registered check |
| ConsistencyRun.RoundSends | hmpc-rs/src/net/consistency.rs:222-256 | a round sends each message at most once and only what its notification asks for, and one message to each receiver when all can be reached |
| ConsistencyHistories.EntryFollowsKey | hmpc-rs/src/net/consistency.rs:283-455 | commands about other keys have no effect on a check |
| ConsistencyHistories.HistoryTracks | hmpc-rs/src/net/consistency.rs:73-182 | in every run with one request: the check stays registered until it finishes, one notification goes to all receivers with the data that is kept, and who left the receivers sent an agreeing check |
| ConsistencyHistories.FinishedMeansVerified | hmpc-rs/src/net/consistency.rs:136-219 | when a run with one request finishes, of every party asked a check came from a known sender with a signature that verifies and the recorded hash |
| ConsistencyHistories.AcceptedIff | hmpc-rs/src/net/consistency.rs:79-87 | the first request is accepted if and only if no check came before from outside the receivers asked for |
| ConsistencyHistories.RejectedForGood | hmpc-rs/src/net/consistency.rs:79-87 | a request rejected for such a check stays without effect in every continuation |
| ConsistencyHistories.SecondRequestAcceptedIff | hmpc-rs/src/net/consistency.rs:79-87 | a rejected request drops what came from outsiders: a second request is accepted if and only if it asks for everybody the first asked for |
| ConsistencyHistories.WaitIgnoresRejected | hmpc-rs/src/net/consistency.rs:258-272 | a wait after a rejected request is answered if and only if no check of another key is registered, although the rejected one never finished |
| ConsistencyHistories.RejectedThenAnswered | hmpc-rs/src/net/consistency.rs:438-453 | the shortest run in which this happens |
| ConsistencyHistories.StuckForGood | hmpc-rs/src/net/consistency.rs:148-169 | once a registered check with data holds a check of an unknown sender, with a signature that does not verify or with another hash, no continuation answers anybody who waits |
| ConsistencyAgreement.FinishedMeansConfirmed | hmpc-rs/src/net/consistency.rs:148-181 | when an honest party has finished a check, every honest party that it asked sent out one check, with the recorded hash |
| ConsistencyAgreement.AnythingElseIsGenuine | hmpc-rs/src/net.rs:376-388 | the assumption about forwarders restricts nothing but checks in the name of honest parties that reach honest parties |
| ConsistencyAgreement.Agreement | hmpc-rs/src/net/consistency.rs:274-456 | two honest parties that both finish the check of a key recorded the same hash, in every run and whatever the sender, the network and the other parties do |
| ConsistencyAgreement.AnsweredMeansFinished | hmpc-rs/src/net/consistency.rs:258-272 | when a command answers somebody who waits, every accepted check has finished |
| ConsistencyAgreement.AnyOrderFinishes | hmpc-rs/src/net/consistency.rs:287-437 | every order of one request, the data and, of each receiver, one check with a signature that verifies and the hash of the data keeps the entry until the last of them and drops it then, having notified each receiver once |
| CheckedDelivery.CheckerGets | hmpc-rs/src/net/server.rs:61-68 | the checker gets exactly the messages of the kinds that are checked, under kind, datatype, sender and id |
| CheckedDelivery.AnswerHasRecordedHash | hmpc-rs/src/net/server.rs:51-70 | when all messages of a key that reach a party have one hash, the caller's contents have the hash of the finished check, in whatever order the two loops handle them |
| CheckedDelivery.RecordedIff | hmpc-rs/src/net/consistency.rs:125-134 | the caller's contents have the recorded hash in every order if and only if all messages of the key that reached the party have one hash |
| CheckedDelivery.SecondMessageHandedOut | hmpc-rs/src/net/message_buffer.rs:46-55 | a second message of a key changes nothing about the check, which finishes with the first, and is what the caller gets |
| MessageBuffers.MessageBuffer.Handle | hmpc-rs/src/net/message_buffer.rs:13-57 | the two maps are what the run so far makes of every message, and the answers are those of the specification |
| MessageBuffers.AnswersPair | hmpc-rs/src/net/message_buffer.rs:13-57 | in every order of requests and arrivals, each once, a caller is answered with a value exactly when it asked for the message and the message came with it |
| MessageBuffers.AnsweredOnce | hmpc-rs/src/net/message_buffer.rs:13-57 | nobody is answered twice |
| MessageBuffers.LastValueAnswered | hmpc-rs/src/net/message_buffer.rs:46-54 | of several arrivals before the request only the last is handed out |
| MessageBuffers.LastWaiterAnswered | hmpc-rs/src/net/message_buffer.rs:28-34 | of several requests before the arrival only the last is answered |
| Collectives.QueueState.NextMessageId | hmpc-rs/src/net/queue.rs:109-135 | the id is the prefix of the hash plus the number of calls under its key, in the circle of the ids |
| Collectives.QueueState.BroadcastOne | hmpc-rs/src/net/queue.rs:233-261 | spawns exactly the sends and receives of a broadcast, and asks for its check |
| Collectives.QueueState.MultiBroadcast | hmpc-rs/src/net/queue.rs:218-263 | several broadcasts are the broadcasts one after the other; a party that sends waits for its checks before it spawns anything |
| Collectives.QueueState.GatherOne | hmpc-rs/src/net/queue.rs:285-305 | spawns exactly the sends and receives of a gather |
| Collectives.QueueState.MultiGather | hmpc-rs/src/net/queue.rs:270-307 | several gathers one after the other, with the same wait |
| Collectives.QueueState.AllGatherOne | hmpc-rs/src/net/queue.rs:342-373 | spawns exactly the sends and receives of an all-gather, also with fewer senders than receivers, and asks for a check of every sender |
| Collectives.QueueState.ExtendedMultiAllGather | hmpc-rs/src/net/queue.rs:324-376 | several all-gathers one after the other, with the same wait of the senders |
| Collectives.QueueState.AllToAllOne | hmpc-rs/src/net/queue.rs:399-411 | spawns exactly the sends and receives of an all-to-all |
| Collectives.QueueState.MultiAllToAll | hmpc-rs/src/net/queue.rs:383-414 | several all-to-alls one after the other, with the same wait |
| CollectivePairing.Counterpart | hmpc-rs/src/net/queue.rs:109-135 | whatever else the parties do, the members of a communicator compute the same id for the same call |
| CollectivePairing.IdIsPrefixPlusOrdinal | hmpc-rs/src/net/queue.rs:109-123 | the id of a call is the prefix of the hash of what its members agree on plus its number among the calls under the same fingerprint |
| CollectivePairing.PrintsApartIff | hmpc-rs/src/net/queue.rs:109-123 | two prefixes are far enough apart exactly when no two ids counted from them are equal |
| CollectivePairing.SameIdSamePrint | hmpc-rs/src/net/queue.rs:109-123 | ids of different fingerprints of one kind and datatype differ, if the prefixes of their hashes are further apart than the parties make calls |
| CollectivePairing.SameIdSameOrdinal | hmpc-rs/src/net/queue.rs:109-135 | the counter gives different ids to different calls of a fingerprint, at any two parties, as long as nobody makes so many calls that it comes round |
| CollectivePairing.EverySendIsAwaited | hmpc-rs/src/net/queue.rs:213-414 | every message that is sent is asked for by its receiver |
| CollectivePairing.EveryReceiveIsServed | hmpc-rs/src/net/queue.rs:213-414 | every message that is asked for is sent |
| CollectivePairing.SendsDistinct | hmpc-rs/src/net/queue.rs:179-194 | no party sends a message twice |
| CollectivePairing.ReceivesDistinct | hmpc-rs/src/net/queue.rs:196-211 | no party asks for a message twice |
| CollectivePairing.CollectiveOutcome | hmpc-rs/src/net.rs:66-110 | after delivery in any order, the places of every member finally hold what broadcast, gather, all-gather and all-to-all promise, at the place of the party it came from |
| CollectivePairing.OthersKept | hmpc-rs/src/net/queue.rs:168-177 | places that no receive names hold what they held before |
| CollectivePairing.OneBroadcastIsValid | hmpc-rs/src/net/queue.rs:218-263 | the conditions on a system can be met, whatever the hashes and whoever else is there |
| CollectivePairing.DeliveryExists | hmpc-rs/src/net/queue.rs:160-211 | the receives of every party can be served by what the others send |
| CollectivePairing.ChecksDistinct | hmpc-rs/src/net/queue.rs:247-256 | a party asks for the check of a key once |
| CollectivePairing.ChecksMutual | hmpc-rs/src/net/queue.rs:358-367 | whoever a party asks to check something with asks that party to check the same |
| CollectivePairing.ReceiveIsChecked | hmpc-rs/src/net/queue.rs:247-256 | a member asks to check exactly what it receives in a broadcast or an all-gather, under the kind, datatype, sender and id of the message, with all receivers but itself and the sender |
| CollectiveConsistency.ReceiveHasCheckedKey | hmpc-rs/src/net/consistency.rs:31-46 | a message that a member receives reaches its checker under the key that it asks to check |
| CollectiveConsistency.OneRequestPerKey | hmpc-rs/src/net/queue.rs:137-144 | the requests of a party's collectives request no key twice, in every run of its checker |
| CollectiveConsistency.ReceiversAgree | hmpc-rs/src/net/queue.rs:213-376 | two honest members that issue collectives in lockstep and both finish the check of what came from a sender recorded the same hash, in every run |
| CollectiveConsistency.CallersAgree | hmpc-rs/src/net/queue.rs:213-376 | then the contents handed out for what the two members receive from that sender in corresponding calls have the same hash too, if at each of them all messages of that kind, datatype, sender and id have one hash |
| CollectiveConsistency.ReceiversFinish | hmpc-rs/src/net/queue.rs:218-263 | when nobody misbehaves, both receivers of a broadcast finish its check, so the conditions of the agreement can be met |

## Left out

- QUIC, TLS, tokio tasks, files and configuration: only the commands that reach the state machines are modelled.
- SHA-256 and Ed25519: hashes and signatures are abstract values, verification an arbitrary function; that nobody
  forges the outer signature of an honest forwarder is the assumption `ConsistencyAgreement.Genuine`.
- ChaCha20 (section 2.3 of RFC 8439) and the samplers, among them the constructor of `mod` from uniformly random
  integers: no statement about probability; plans are modelled without random capabilities.
- Signed storage and sign extension: operands on limbs are unsigned; signed inputs of residues are mathematical
  integers with the range of their type.
- Constant folding inside single-limb operations: all branches compute the general case.
- Reading the upper limb of a span masks the bits beyond its size; operands are assumed to have no such bits
  (`Spans.Span.Normal`), so that the mask changes nothing.
- Chains.Add: like the other loops, writes whole limbs (spans that are not normal). For normal spans `NormalWrites`
  masks once, after the last write; the loops mask at every write of the top limb, which they never read again
  except to add to it.
- Chains.Subtract: the same.
- Chains.BitCopy: the same.
- Chains.Select: the same.
- Shifts.ShiftLeft: the same.
- Shifts.ShiftRight: the same.
- Multiplication.Multiply: the same.
- Multiplication.MultiplyCompiletime: the same.
- Euclid.GreatestCommonDivisor: the same.
- The constants of a modulus (`hmpc/ints/mod.hpp:114-127`) are what their names say; `ModulusConstants` is about
  whether one of them can be computed.
- `hmpc/core/num/has_single_bit.hpp`, limb conversion, cipher expressions, literals and formatting: easy, and
  nothing else rests on them.
- Bitwise shifts and masks are arithmetic: a shift is a product or a quotient by a power of two, and an "or" of
  parts that do not overlap is a sum, except in `BitReversal`, where both operations are defined bit by bit.
- The run-time shifts by a constant and the run-time fold for trailing zeros (`hmpc/core/num/shift_left.hpp:13-51`,
  `hmpc/core/num/countr_zero.hpp:16-34`): the variants with a loop are modelled.
- Numeric.InvertModulo: does not cover the run of the algorithm on numbers without an inverse, which ends in an
  assertion in the code.
- RootsOfUnity.RootTest: does not say that the random search for a root ends, because that needs a generator of the
  multiplicative group; what it returns passes the test.
- BitReversal.BitReverse: does not cover a width of one or zero bits, which the general overload refuses to compile.
- TransformKernels.ForwardTransform: takes the values of the inner expression as given, element by element; a
  work-item runs as a whole, which loses nothing because different items touch different elements.
- Encryption.DecOfEnc: speaks of one vector; the unsqueezed shapes repeat it along the other dimensions.
- Execution.PlanIsCorrect: gives an operator one meaning on whole tensors; that an expression computed in place is
  evaluated index by index inside a kernel is part of that meaning. Expressions are equal when their types are.
- Planning.ComplexIsPlanned: takes for granted that every complex expression may be kept, as all of the library do.
- Shapes, owned and tuple results of the queue, and the cache of extra tensors across runs.
- Collectives.QueueState.MultiBroadcast: and its siblings count no statistics; a party that calls a broadcast or a
  gather is a member of the communicator.
- CollectivePairing.CollectiveOutcome: assumes that of different fingerprints of one kind and datatype the hashes
  differ and their prefixes are further apart than the parties make calls (`CollectivePairing.System.NoCollisions`), that
  nobody makes as many calls as there are ids (`CollectivePairing.System.Bounded`), that the places of a party's
  receives differ, and that the network delivers every message once; the contents of a place are those it has when it
  is sent.
- CheckedDelivery.RecordedIff: a message is its metadata, its contents and a signature that has been verified; that
  equal hashes mean equal contents is the assumption behind hashing.
- The check of the size of a received message, which cannot fail when all members name the same size.
