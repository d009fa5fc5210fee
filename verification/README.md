# Verification of the BLE mesh gateway

The gateway is a C program that sits between a serial-attached BLE mesh device and the console. It
provisions devices, and for that it carries its own implementation of ECDH on the curve P-256. This
project models the two parts of it in which a mistake is hard to see, and proves what they compute.

**The P-256 stack** (`source/ecdh`). Numbers are little-endian arrays of 32-bit words. The project follows
the code layer by layer, in place and with the aliasing the code uses, and ties each layer to
mathematics:

- `Words`, `Vli`, `Product`, `Reduce`, `Inverse`: carry chains, comparisons, the column-wise product, the
  shift-and-subtract reduction and the binary inversion, for any number of words. The meaning of an array
  is `Val`, the number it stands for, and the contracts speak of that number only.
- `P256`: the hand-unrolled reduction for the P-256 prime (appendix D.2.3 of FIPS 186-4).
- `Field`, `CurveGroup`: residues, and the chord-and-tangent group of the curve as a reference definition.
- `CoZ`, `Points`: the point formulas as functions on residues, proved to compute the group operation, and
  the word-level methods, proved to compute those functions.
- `Ladder`, `Scalar`: the Montgomery ladder with its implied denominator, the recovery of the denominator,
  the regularisation of the scalar, and the exact set of scalars and points for which the result is right.
- `Bytes`, `Ecdh`, `Theorems`: byte conversion, point validation, key generation and the shared secret, and
  what all of this adds up to for two parties (section 5.7.1.2 of NIST SP 800-56A).

**The serial protocol** (`source/ble`).

- `Serial`: the incremental frame parser with its bulk copies, related to a machine that takes one byte at
  a time; the frame writer; the receiving thread.
- `Commands`: the commands to the device and the bytes of the packets that carry them.
- `Provisioning`: the ten-step provisioning controller as an object, and properties of all its runs.
- `Frames`: what the controller does with every frame, stated on its bytes, and that a device which plays
  its part is provisioned.
- `Gateway`: bytes in, commands out; whole streams of reads; the frame that carries the shared secret to the
  device.

`Arith` holds facts about products, quotients and remainders. `dafny verify dfyconfig.toml` checks the
whole project.

## Hypotheses

Three facts about P-256 are hypotheses of the theorems about points, never proved and never built into a
definition: every non-zero residue modulo p, and modulo the order n, has an inverse (`Field.PrimeField`);
the chord-and-tangent addition is associative on the curve (`CurveGroup.Associative`); and the multiples of
the point in question that vanish are exactly the multiples of n (`CurveGroup.HasOrder`). That the curve is
closed under addition, and all other group laws used, are proved. So is that the base point in the source
lies on the curve.

## Findings

- **The ladder fails on four classes of scalars.** After regularisation the scalars congruent to -2, -1, 0
  and 1 modulo n make the last step but one add a point to its opposite. The denominator is then lost and
  the result is the pair (0, 0), which the code reads as infinity. It is right for the multiples of n and
  wrong for the other three classes. A point with abscissa zero gives (0, 0) too, because the abscissa is a
  factor of the inverted product. `Scalar.CorrectExactly` states exactly when the result is right;
  `Scalar.NonZeroIsCorrect` shows that a wrong result is always (0, 0), so that the callers which test for it
  report a failure. `ble_ECDHSecret` does not look at the report and sends zeros. `Theorems.KeyOneFails` and
  `Theorems.ZeroAbscissaFails` are the inputs: the private key 1 with any point, and a point of P-256 whose
  abscissa is zero (`Theorems.ZeroAbscissaOnCurve`) with any private key.
- **A read that consists of one zero byte is dropped** by `ble_receive_handle`, even in the middle of a
  frame. `Serial.ReceiveFaithful` shows that the receiver is faithful to the byte stream exactly when no
  such read occurs, and `Serial.ReceiveLosesByte` gives a frame that is corrupted.
- **A session can be configured with the handles of another device.** When the link closes before the
  responses to the device-key and publication commands have arrived, the configuration commands go out with
  the device-key handle of an earlier session, and with the plain unicast address where an address handle
  belongs. `Provisioning.ConfiguredDevice` says exactly which values every configuration command carries;
  `Provisioning.EarlierHandleUsed` gives a run from the initial state in which the handle reported for a
  first device goes out to a second one.
- **Key 1 does not write the scan-start opcode.** `ble_scanStart` writes opcode 0xd0, which the opcode table
  calls a jump to the bootloader; the scan-start opcode is 0x61. `Commands.Packet` follows the code.
- `uECC_vli_equal` returns non-zero when the numbers differ; its one caller uses it that way.

## Model

| member | source | states |
|---|---|---|
| Vli.Clear | source/ecdh/ecc.c:86-92 | the first n words stand for zero, the others are untouched |
| Vli.IsZero | source/ecdh/ecc.c:94-102 | the or of all words is zero exactly for the number zero |
| Vli.TestBit | source/ecdh/ecc.c:104-108 | the masked word is non-zero exactly when that bit of the number is set |
| Vli.BitOfVal | source/ecdh/ecc.c:104-108 | bit b of the number is bit b mod 32 of word b / 32 |
| Vli.NumDigits | source/ecdh/ecc.c:111-122 | the position after the last non-zero word |
| Vli.DigitBits | source/ecdh/ecc.c:136-139 | the loop counts the bits of the top word |
| Vli.NumBits | source/ecdh/ecc.c:124-142 | the bit length: the number is below 2^r and not below 2^(r-1) |
| Vli.CmpUnsafe | source/ecdh/ecc.c:154-168 | the sign of the difference of the two numbers |
| Vli.Differ | source/ecdh/ecc.c:170-181 | true exactly when the numbers differ |
| Vli.CondSet | source/ecdh/ecc.c:183-186 | multiplying by the condition selects one of the two words |
| Vli.Sub | source/ecdh/ecc.c:190-203 | result - 2^32n borrow = left - right for every n, also when the result is an operand |
| Vli.Add | source/ecdh/ecc.c:207-219 | result + 2^32n carry = left + right for every n, also when the result is an operand |
| Vli.Cmp | source/ecdh/ecc.c:221-228 | the comparison through a subtraction has the sign of the top-down one |
| Vli.RShift1 | source/ecdh/ecc.c:231-242 | the number in a stretch of words is halved exactly |
| Product.MulAdd | source/ecdh/ecc.c:244-255 | the three-word accumulator grows by the product of two words |
| Product.ColumnSum | source/ecdh/ecc.c:270-272 | one diagonal is added to the accumulator, which stays below n (2^32 - 1) 2^32 |
| Product.Mult | source/ecdh/ecc.c:258-291 | the number in the 2n result words is the product of the operands |
| Product.ColumnsAreProduct | source/ecdh/ecc.c:268-290 | the weighted sum of the diagonals is the product of the two numbers |
| Product.LastWord | source/ecdh/ecc.c:290-290 | when the last word is stored, the rest of the accumulator is zero |
| Reduce.ModAdd | source/ecdh/ecc.c:293-303 | the canonical residue of the sum of two reduced operands, carry included |
| Reduce.ModSub | source/ecdh/ecc.c:305-315 | the canonical residue of the difference of two reduced operands |
| Reduce.TopPosition | source/ecdh/ecc.c:326-331 | shifted by 64n minus its bit length, the modulus has its top bit at the top of the 2n words |
| Reduce.ShiftIn | source/ecdh/ecc.c:332-341 | the modulus, shifted left bit-wise across words, is written exactly |
| Reduce.TopMultiple | source/ecdh/ecc.c:326-341 | the multiple at the start of the loop is the modulus times 2^shift and fills the 2n words |
| Reduce.SubtractOnce | source/ecdh/ecc.c:344-352 | the borrow tells which buffer holds the reduced value, which keeps its residue |
| Reduce.ReduceStep | source/ecdh/ecc.c:343-354 | one conditional subtraction keeps the residue and halves the bound |
| Reduce.HalveLower | source/ecdh/ecc.c:355-357 | the low bit of the upper half enters at the top of the halved lower half |
| Reduce.HalveMultiple | source/ecdh/ecc.c:355-358 | two half-length shifts and the middle bit halve the whole 2n-word multiple |
| Reduce.Mmod | source/ecdh/ecc.c:319-361 | result = product mod modulus for every n and every modulus with a non-zero top word; the index always names the live copy |
| Reduce.ModMult | source/ecdh/ecc.c:363-370 | result = left * right mod modulus |
| Inverse.ModInvUpdate | source/ecdh/ecc.c:391-405 | exact halving modulo an odd modulus, with the lost carry put back |
| Inverse.SubtractReduced | source/ecdh/ecc.c:434-437 | the difference modulo the modulus although the addition before it may overflow the words |
| Inverse.HalveSide | source/ecdh/ecc.c:425-430 | the branch for an even number keeps u * input = a and v * input = b modulo the modulus, and the common divisors |
| Inverse.SubtractSide | source/ecdh/ecc.c:431-447 | the branch for two odd numbers keeps the same invariant and makes the larger smaller |
| Inverse.GcdLoop | source/ecdh/ecc.c:424-448 | the loop terminates, and the two numbers meet with the invariant intact |
| Inverse.MeetAtGcd | source/ecdh/ecc.c:424-449 | where they meet is the greatest common divisor of input and modulus |
| Inverse.ModInv | source/ecdh/ecc.c:407-450 | result * input = gcd(input, modulus) modulo an odd modulus above 1; the inverse when there is one; zero for zero |
| P256.FastSumIsProduct | source/ecdh/ecc.c:525-606 | the nine sums differ from the 16-word product by an explicit multiple of the prime |
| P256.FastDoubles | source/ecdh/ecc.c:525-549 | the first three sums, doubled in place, with three words of the buffer left over from before |
| P256.FastTerms | source/ecdh/ecc.c:525-606 | the signed carry and the result together are the nine sums |
| P256.MmodFast | source/ecdh/ecc.c:520-619 | both final loops terminate; result = product mod p for every 16-word product |
| CurveGroup.SumOnCurve | source/ecdh/ecc.c:501-513 | the curve with a = -3 is closed under chord-and-tangent addition |
| CurveGroup.SameAbscissa | source/ecdh/ecc.c:660-684 | two points with one abscissa are equal or opposite, the case the co-Z formulas cannot handle |
| CurveGroup.DistinctAbscissas | source/ecdh/ecc.c:728-771 | two multiples have different abscissas unless the order divides their difference or sum |
| Points.FieldAdd | source/ecdh/ecc.c:293-303 | addition of residues modulo p |
| Points.FieldSub | source/ecdh/ecc.c:305-315 | subtraction of residues modulo p |
| Points.FieldMul | source/ecdh/ecc.c:372-379 | multiplication modulo p of operands that need not be reduced |
| Points.HalveInPlace | source/ecdh/ecc.c:477-483 | add-p-then-shift with the carry put back is halving modulo p |
| CoZ.HalveLift | source/ecdh/ecc.c:477-483 | the halving inverts doubling on residues and stays below p |
| Points.DoubleJacobian | source/ecdh/ecc.c:454-499 | the in-place word operations compute the function CoZ.Double |
| CoZ.DoubleCorrect | source/ecdh/ecc.c:454-499 | doubling a point over z gives its double, by the tangent, over y z^4 |
| Points.ApplyZ | source/ecdh/ecc.c:626-635 | (x z^2, y z^3) |
| CoZ.ApplyInverse | source/ecdh/ecc.c:626-635 | with the inverse of the denominator this recovers the affine point |
| Points.XYcZInitialDouble | source/ecdh/ecc.c:638-658 | the word operations compute CoZ.InitialDouble, with denominator one when none is given |
| CoZ.InitialDoubleCorrect | source/ecdh/ecc.c:638-658 | P becomes (2P, P) over one denominator, for every non-zero initial denominator |
| Points.XYcZAdd | source/ecdh/ecc.c:660-684 | the in-place word operations compute CoZ.Add |
| CoZ.AddZOnChord | source/ecdh/ecc.c:660-684 | over the integers, the formula is the chord construction over the new denominator |
| CoZ.AddCorrect | source/ecdh/ecc.c:660-684 | (P, Q) over z becomes (P, P + Q) over z (x2 z^2 - x1 z^2), when the abscissas differ |
| Points.XYcZAddC | source/ecdh/ecc.c:690-726 | the in-place word operations compute CoZ.AddC |
| CoZ.AddCZIsTwoAdds | source/ecdh/ecc.c:686-726 | conjugate addition is the addition of Q and of -Q with shared products |
| CoZ.AddCCorrect | source/ecdh/ecc.c:690-726 | (P, Q) becomes (P - Q, P + Q) over the same new denominator |
| CoZ.PointOfJacobian | source/ecdh/ecc.c:626-635 | coordinates with y^2 = x^3 - 3 x z^4 + b z^6 over an invertible z stand for a point of the curve |
| CoZ.AdditionsKeepEquation | source/ecdh/ecc.c:660-726 | whenever both inputs satisfy that equation, so do all four results, over z (X2 - X1), also for equal abscissas |
| CoZ.DoubleKeepsEquation | source/ecdh/ecc.c:454-499 | whenever the input satisfies it, so does its double over the computed Z1, without exception |
| Points.ConjugateSlots | source/ecdh/ecc.c:748-748 | the slot arithmetic of the ladder, for both values of the bit |
| Points.FinishSlots | source/ecdh/ecc.c:749-749 | the slot arithmetic of the ladder, for both values of the bit |
| Points.LadderLoop | source/ecdh/ecc.c:746-750 | the loop runs the steps for the bits numBits - 2 down to 1 |
| Points.RecoverZ | source/ecdh/ecc.c:756-765 | Xb yP times what the inversion makes of xP Yb (X1 - X0) |
| Points.MultiplyInSlots | source/ecdh/ecc.c:740-768 | the whole word-level computation is the one specified by Ladder.IsPointMult |
| Points.EccPointMult | source/ecdh/ecc.c:728-771 | the same for the result, which may overlap the point; both coordinates are reduced |
| Ladder.StepCorrect | source/ecdh/ecc.c:746-750 | slots holding kP and (k+1)P over one denominator hold (2k+bit)P and (2k+bit+1)P after a step |
| Ladder.RunCorrect | source/ecdh/ecc.c:746-750 | in every safe run the slots hold the prefix of the scalar times P and its successor |
| Ladder.InvertedProduct | source/ecdh/ecc.c:756-759 | xP Yb (X1 - X0) has the same value for both last bits, since two signs cancel |
| Ladder.RecoveredZ | source/ecdh/ecc.c:756-765 | the recovered z times the denominator after the last addition is the inverse times the inverted product |
| Ladder.LastBitCorrect | source/ecdh/ecc.c:752-768 | the last bit gives the affine multiple, whenever the product can be inverted |
| Ladder.ProductInvertible | source/ecdh/ecc.c:756-760 | it can be inverted as soon as the abscissa of the point is not zero |
| Ladder.SafeMult | source/ecdh/ecc.c:728-771 | without a degenerate step the result is the full scalar times P, for every num_bits and every initial denominator |
| Ladder.OppositeStep | source/ecdh/ecc.c:748-749 | a step on opposite points collapses both slots, one of them to (0, 0) |
| Ladder.DegenerateMult | source/ecdh/ecc.c:728-771 | a run whose last step but one meets opposite points returns (0, 0) |
| Scalar.RegularizeK | source/ecdh/ecc.c:773-788 | the array chosen by the carry, under an implied leading one, is k + n or k + 2n, also when k0 is k |
| Scalar.ExceptionalRegular | source/ecdh/ecc.c:773-788 | the regularised scalar lies in [2^256, 2^257), and is exceptional exactly in [2n - 2, 2n + 1] |
| Scalar.EarlySafe | source/ecdh/ecc.c:746-750 | for every scalar, no step but the last two can be degenerate |
| Scalar.LateSafe | source/ecdh/ecc.c:746-768 | outside the four exceptions the last two steps are safe as well |
| Scalar.RegularMult | source/ecdh/ecc.c:728-788 | for every 256-bit k and initial denominator: k times the point, but (0, 0) for abscissa zero and k = -2, -1, 0, 1 mod n |
| Scalar.CorrectExactly | source/ecdh/ecc.c:728-788 | the result is right if and only if n divides k, or the abscissa is not zero and k is not -2, -1 or 1 mod n |
| Scalar.NonZeroIsCorrect | source/ecdh/ecc.c:728-788 | a result other than (0, 0) is never wrong, and occurs exactly outside the exceptions |
| Scalar.Agreement | source/ecdh/ecc_dh.c:104-148 | two parties whose results are not (0, 0) get the same point, whatever their denominators |
| Bytes.BigEndianFirst | source/ecdh/ecc.c:813-834 | the first byte of a string has the highest weight |
| Bytes.NativeToBytes | source/ecdh/ecc.c:813-821 | the low bytes of the number, most significant first (section 2.3.7 of SEC 1) |
| Bytes.BytesToNative | source/ecdh/ecc.c:824-834 | the words stand for the big-endian number of the bytes (section 2.3.8 of SEC 1) |
| Bytes.BytesRoundTrip | source/ecdh/ecc.c:813-834 | bytes to number to bytes is the identity |
| Bytes.NativeRoundTrip | source/ecdh/ecc.c:813-834 | number to bytes to number is the identity on numbers that fit |
| Ecdh.XSide | source/ecdh/ecc.c:501-513 | x^3 - 3x + b mod p |
| Ecdh.PointIsZero | source/ecdh/ecc.c:621-624 | both coordinates are zero |
| Ecdh.ValidPoint | source/ecdh/ecc.c:862-887 | 0 if and only if the point is an affine point of the curve; -1, -2 and -3 otherwise (section 3.2.2.1 of SEC 1) |
| Ecdh.MaskWord | source/ecdh/ecc.c:851-852 | the shifted mask keeps the low bits of the top word |
| Ecdh.TakeDraw | source/ecdh/ecc.c:848-852 | after masking, the words stand for the draw modulo 2^bits of the top value |
| Ecdh.GenerateRandomInt | source/ecdh/ecc.c:836-859 | for every top with a non-zero top word: success exactly when a masked draw in 1 to top-1 comes within 64 tries and before a refusal, and then the result is the first such draw |
| Ecdh.MaskKeepsLowBits | source/ecdh/ecc.c:851-852 | for a top value of r bits, the mask keeps the r low bits of a draw |
| Ecdh.PrimeMask | source/ecdh/ecc.c:836-859 | for p the mask keeps the whole draw |
| Ecdh.ComputePublicKey | source/ecdh/ecc.c:790-810 | the regularised key times the base point; failure exactly for (0, 0) |
| Ecdh.MakeKey | source/ecdh/ecc_dh.c:62-102 | the key pair of the first draw that is not degenerate, the private key below the order and congruent to the drawn words; nothing is written on failure, which needs a refusal or 64 degenerate draws |
| Ecdh.StoreKeys | source/ecdh/ecc_dh.c:85-93 | the three big-endian encodings |
| Ecdh.MultiplyByKey | source/ecdh/ecc_dh.c:144-145 | the point is replaced by the result for the regularised key |
| Ecdh.SharedSecret | source/ecdh/ecc_dh.c:104-157 | the secret is the abscissa of key times point for some initial denominator; the random denominator does not overwrite the scalar; nothing is written when the generator fails |
| Theorems.KeyMultCorrect | source/ecdh/ecc_dh.c:144-145 | a multiplication by a key gives the multiple or, in the exceptional cases, (0, 0) |
| Theorems.SecretCorrect | source/ecdh/ecc_dh.c:104-157 | success is reported exactly outside the exceptions, and then the secret is right |
| Theorems.FailedSecretIsZero | source/ecdh/ecc_dh.c:147-148 | a secret reported as a failure is all zero bytes |
| Theorems.KeyPairCorrect | source/ecdh/ecc_dh.c:62-102 | a generated private key is not exceptional, and its public key is that multiple of the base point |
| Theorems.KeyAgreement | source/ecdh/ecc_dh.c:104-157 | two parties with generated keys hold the same secret bytes, with or without random denominators, unless a public abscissa is zero |
| Theorems.BasePointOnCurve | dependencies/include/ecc.h:160-194 | the base point of the constants is that of P-256: on the curve, with this abscissa and an odd ordinate |
| Theorems.KeyOneFails | source/ecdh/ecc_dh.c:104-157 | with the private key 1 the secret is refused, although 1 times the point is the point |
| Theorems.ZeroAbscissaOnCurve | dependencies/include/ecc.h:160-194 | a point of the curve with abscissa zero |
| Theorems.ZeroAbscissaFails | source/ecdh/ecc_dh.c:104-157 | with that point every secret is refused, although the multiple is a point |
| Serial.Parser.constructor | source/ble/ble_cli.c:110-114 | the parser starts between frames, all zero |
| Serial.Parser.ReadData | source/ble/ble_cli.c:144-171 | bulk copying of payload bytes is taking them one by one |
| Serial.Parser.Parse | source/ble/ble_cli.c:117-181 | up to the first frame, the bytes used and the frame are those of the byte-wise machine; no progress only for a pending frame |
| Serial.Parser.HandleCmd | source/ble/ble_cli.c:581-593 | terminates; reports all frames of the read in order and ends in the state of the byte-wise machine |
| Serial.Parser.ReceiveRead | source/ble/ble_cli.c:601-624 | one read, with a single zero byte dropped |
| Serial.BulkComplete | source/ble/ble_cli.c:149-164 | copying the rest of a frame at once reports the frame the single bytes would |
| Serial.RunAppend | source/ble/ble_cli.c:581-593 | parsing a concatenation is parsing its parts in turn |
| Serial.ChunkInvariance | source/ble/ble_cli.c:581-593 | frames and final state do not depend on how the bytes are split into reads |
| Serial.Conservation | source/ble/ble_cli.c:117-181 | the input bytes are exactly the frames reported plus what is partial: nothing lost, nothing used twice |
| Serial.Write | source/ble/ble_serial.c:96-115 | length byte, opcode and payload, for every size up to 255 |
| Serial.RoundTrip | source/ble/ble_serial.c:96-115 | every list of written frames is read back, except that a last empty frame stays pending |
| Serial.RoundTripChunks | source/ble/ble_cli.c:581-593 | the same for every split of the written bytes |
| Serial.ReceiveFaithful | source/ble/ble_cli.c:595-624 | the receiving thread agrees with the byte stream if and only if no read is a single zero byte |
| Serial.ReceiveLosesByte | source/ble/ble_cli.c:605-610 | a frame whose zero payload byte arrives alone is not completed |
| Commands.Message | source/ble/ble_serial.c:288-433 | the four configuration messages have different lengths |
| Commands.PacketFits | source/ble/ble_serial.c:126-275 | every packet fits a frame |
| Commands.LowByteFirst | source/ble/ble_serial.c:145-151 | 16-bit fields are written low byte first |
| Commands.ProvisionLayout | source/ble/ble_serial.c:136-155 | every field of the Provision packet at its offset |
| Commands.DevKeyLayout | source/ble/ble_serial.c:251-263 | owner, subnet and key of the device-key packet at their offsets |
| Commands.AppKeyLayout | source/ble/ble_serial.c:223-249 | index, subnet and the application key of that index at their offsets |
| Commands.MeshLayout | source/ble/ble_cli.c:626-635 | device key, source, destination, hop limit and flags at their offsets, then the message; the length is not transmitted |
| Commands.ShortLayouts | source/ble/ble_serial.c:126-275 | the bytes of all other packets |
| Commands.PacketInjective | source/ble/ble_serial.c:126-433 | a packet determines its command, and a secret packet the secret |
| Commands.WrittenApart | source/ble/ble_serial.c:96-115 | the bytes of written frames determine the list of frames |
| Commands.WireTellsCommands | source/ble/ble_serial.c:96-275 | the bytes on the wire determine the commands, up to the inputs of the shared secrets |
| Provisioning.Controller.constructor | source/ble/ble_serial.c:34-34 | the initial session, with the first address counter |
| Provisioning.Controller.ProvisionDevice | source/ble/ble_serial.c:136-155 | the counter moves on by one modulo 2^16 and goes out with the Provision command |
| Provisioning.Controller.ProcessResponse | source/ble/ble_cli.c:183-312 | state and commands after a command response are those of the transition table |
| Provisioning.Controller.ProcessMessage | source/ble/ble_cli.c:314-390 | state and commands after a mesh message are those of the transition table |
| Provisioning.Controller.ProcessCommand | source/ble/ble_cli.c:392-579 | state and commands after any frame are those of the transition table |
| Provisioning.Controller.Rescan | source/ble/main.c:33-38 | key 1 writes the command of ble_scanStart and returns to the step New; nothing else changes |
| Provisioning.HandleStages | source/ble/ble_cli.c:392-579 | from one step to the next, an event sends exactly the stages of the script in between |
| Provisioning.ScriptFollowed | source/ble/ble_cli.c:392-566 | in every run, the stages sent since the last return to New are the prefix of the script named by the step |
| Provisioning.RunIsSessions | source/ble/ble_cli.c:392-566 | all stages ever sent are a sequence of prefixes of the script; in particular AppKeyAdd is sent at most once a session |
| Provisioning.AddressesCount | source/ble/ble_serial.c:145-146 | the k-th Provision command carries the start address plus k modulo 2^16 |
| Provisioning.AddressesDistinct | source/ble/ble_serial.c:145-146 | fewer than 2^16 sessions get different addresses |
| Provisioning.LatestAddress | source/ble/ble_serial.c:251-275 | in every run each DevKeyAdd and AddrPublicationAdd carries the address of the latest Provision |
| Provisioning.OneTarget | source/ble/ble_cli.c:314-366 | in every run all configuration commands of a session carry the same two handles |
| Provisioning.DeviceKeyOrigin | source/ble/ble_cli.c:187-202 | the device-key handle is the one last reported while the session waited for its link to close, otherwise the left-over one |
| Provisioning.DestinationOrigin | source/ble/ble_cli.c:220-232 | the destination is the publication handle so reported, otherwise the plain unicast address |
| Provisioning.ConfiguredDevice | source/ble/ble_cli.c:314-366 | every configuration command of a session carries exactly these two handles, whenever it was sent |
| Provisioning.StaleHandlesUsed | source/ble/ble_cli.c:484-499 | from any New session, a run in which the composition request goes out with a left-over key handle |
| Provisioning.EarlierHandleUsed | source/ble/ble_cli.c:484-499 | from the initial session, a run in which the handle of a first device is used for a second one that reported none |
| Provisioning.RunSized | source/ble/ble_serial.c:126-275 | the variable fields of every command of every run have the sizes of their structures |
| Provisioning.WireTellsRun | source/ble/ble_cli.c:392-579 | two runs that write the same bytes sent the same commands, up to the inputs of the shared secrets |
| Frames.UnprovisionedFrame | source/ble/ble_cli.c:403-415 | at New, the first 16 bytes are the UUID that is provisioned under the next address; otherwise nothing happens |
| Frames.CapsFrame | source/ble/ble_cli.c:427-438 | at the step that waits for it, context, action and size are read from bytes 0, 8 and 7 |
| Frames.EcdhFrame | source/ble/ble_cli.c:458-470 | for every context, peer key and node key, the frame with these bytes in a row makes exactly the command with them go out |
| Frames.AuthFrame | source/ble/ble_cli.c:472-482 | the context in byte 0 is answered |
| Frames.CompleteFrame | source/ble/ble_cli.c:440-456 | the address at 7 becomes the destination, the key at 11 is added for the assigned address; scanning is stopped at any step |
| Frames.LinkClosedFrame | source/ble/ble_cli.c:484-500 | the composition request at the step that waits for the link to close, otherwise back to New |
| Frames.CompositionFrame | source/ble/ble_cli.c:318-566 | either of two events ends the wait, and only at its step |
| Frames.AppKeyFrame | source/ble/ble_cli.c:330-340 | message bytes 0x80 0x03 move on from the AppKey step, and only from it |
| Frames.ModelAppFrame | source/ble/ble_cli.c:342-356 | message bytes 0x80 0x3e move on, and the element address is the half-word after the status |
| Frames.PublicationFrame | source/ble/ble_cli.c:358-366 | message bytes 0x80 0x19 end the session |
| Frames.DevKeyResponse | source/ble/ble_cli.c:187-202 | for every handle: the half-word at 2 is stored while the link is awaited, and nothing else changes |
| Frames.PublicationResponse | source/ble/ble_cli.c:220-232 | the same for the destination |
| Frames.SubnetResponse | source/ble/ble_cli.c:204-218 | the handle is stored at New only; both application keys go out with the stored handle |
| Frames.LocalUnicastResponse | source/ble/ble_cli.c:234-243 | the subnet is added |
| Frames.DeviceStartedFrame | source/ble/ble_cli.c:532-539 | the local address is set |
| Frames.IrrelevantFrame | source/ble/ble_cli.c:183-312 | failed responses and all other frames change nothing and send nothing |
| Frames.NextStep | source/ble/ble_cli.c:392-579 | the step after any frame, from the opcode and two message bytes |
| Frames.LeavesStep | source/ble/ble_cli.c:392-579 | a frame leaves a step if and only if it is the one awaited, or the link closes during a session |
| Frames.SessionCompletes | source/ble/ble_cli.c:314-579 | from every step, the awaited frames in order, with any others in between that do not close the link, make all remaining stages go out once and lead to New |
| Frames.SessionInFull | source/ble/ble_cli.c:314-579 | for arbitrary contents, all eleven commands of an undisturbed session with their fields, and the session left behind |
| Gateway.CommandsWellFormed | source/ble/ble_cli.c:392-394 | every frame reported on a well-formed stream has a buffer the handlers can read |
| Gateway.Receiver.HandleBytes | source/ble/ble_cli.c:581-624 | bytes to commands: parser and controller together do what the two specifications say |
| Gateway.Receiver.ReceiveReads | source/ble/ble_cli.c:595-624 | any number of reads, single zero bytes dropped, leaves the commands and the session for all their frames in order |
| Gateway.ReadsContinue | source/ble/ble_cli.c:581-593 | a stream may be cut anywhere: its parts, handled in turn, give the commands and the session of the whole |
| Gateway.WrittenInOrder | source/ble/ble_cli.c:581-624 | written frames are handled in the order in which they were written |
| Gateway.DeviceProvisioned | source/ble/ble_cli.c:314-624 | a device that writes the awaited frames is provisioned, however its bytes arrive |
| Gateway.StreamDeterminesCommands | source/ble/ble_cli.c:581-624 | the commands sent depend on the byte stream only, not on how it was read |
| Gateway.EcdhSecret | source/ble/ble_serial.c:171-183 | the bytes 34, 0x68, the context and the computed secret, whatever uECC_shared_secret reported |
| Gateway.DeviceGetsSecret | source/ble/ble_serial.c:171-183 | outside the exceptions these bytes read back as one frame with the context and the abscissa of the private key times the peer's point |
| Gateway.RequestAnswered | source/ble/ble_cli.c:458-470 | an ECDH request is answered by one command with its two keys, whose packet carries context and secret |

## Left out

Form of the model:

- A point is a pair of 8-word arrays instead of one 16-word buffer, and the curve structure is a datatype of
  arrays. Local buffers have the size in use instead of the fixed maximum.
- Loops of one C function are sometimes methods of their own (`Product.ColumnSum`, `Reduce.ShiftIn`,
  `Inverse.GcdLoop`, `Points.LadderLoop`). The subtraction inside `uECC_vli_mmod` and the word-by-word
  comparisons repeat code of other functions and call the methods for those.
- Word counts are natural numbers; the 8-bit counter type of the code limits them to 127.
- The random number generator is the list of its answers. The second half of the carry test in
  `regularize_k` can never apply when the order has 256 bits, and is not modelled.
- The packed structures of the commands are the function `Commands.Packet`; how the code fills its buffers
  is not followed, except for the shared secret (`Gateway.EcdhSecret`).
- `Ecdh.GenerateRandomInt`: a top value with a zero top word is excluded; the code would shift its mask by
  the word size or more.
- `Reduce.Mmod`: a modulus with a zero top word is excluded, as the header of the code warns.
- `Inverse.ModInv`: an even modulus is excluded; the code is only used with odd ones.
- `CoZ.AddCorrect`, `CoZ.AddCCorrect`: points with equal abscissas are excluded. What happens then is modelled
  where it can occur, in `Ladder.OppositeStep`.
- `Serial.Parser.Parse`: a length byte of zero is excluded; the code would copy a negative number of bytes.
- `Serial.RoundTrip`: a payload of 255 bytes is excluded; its length byte would be zero.
- `Provisioning.Controller.ProcessCommand`: records the commands and not their bytes; `Commands.Packet` gives
  the bytes of each. The element address in the bind and publication messages is a constant of the code.

Parts of the repository:

- Opening and configuring the serial port, threads, sleeping, the console loop except key 1, and all
  printing. Each received frame and each key is one atomic step.
- The manual sends of the other keys: scan stop, on and off, composition request, node reset.
- The order of the commands outside a session (scan stop, local address, subnet and application keys): they
  are modelled, but not part of the script.
- The opcode tables, the message structures that are only printed, and the key-index packing.
- `uECC_valid_public_key` and `uECC_compute_public_key`: wrappers around what is modelled.
- Erasing of secrets, constant running time and the quality of the random numbers.
- Primality of p and n, associativity of the curve group, and the order of the base point: hypotheses.
