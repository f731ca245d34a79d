# Verified models of the native libraries behind the Android server

The repository wraps two C libraries. This project models their hard parts in Dafny 4.11 and
proves what they are for.

- **Multi-precision integers** (`bignum.c`, used by `dhm.c`). Numbers are objects with a sign
  and a growable buffer of limbs, changed in place by carry and borrow loops; every operation is
  specified by the integer it denotes. The limb width stays open between 32 and 64 bits, so each
  result holds for both. Modules `Arith` to `Shift` build the arithmetic; `Montgomery`,
  `IntDiv`, `Division`, `ExpMod`, `GcdInv`, `ModInt`, `Primes`, `MillerRabin` and `Radix` hold
  the algorithms; `Dhm` is the client whose blinding state spans calls.
- **The event loop** (`ev.c`, `ev_poll.c`). `Wakeup` is the fence-based protocol between the loop
  and any number of senders, one shared access per step; `WakeupHistory` explains every variable
  of it by the steps made before. `Pending` has the LIFO queues per priority that callbacks change
  while they are drained, against a dispatch that knows only the history of feeds, clears and
  calls. `TimerHeap` and `Timers` are the 4-ary heap with back-indices and the timer pass.
  `PollSet` and `Interest` bring the polled descriptors into agreement with the watchers.
- **Byte transforms** (`cipher.c`, `cmac.c`, `ccm.c`, `base64.c`) over an arbitrary block
  permutation (`Blocks`): streaming CBC and CMAC against their one-shot forms, CCM formatting,
  counters and authenticated decryption, and Base64 with its two decoding passes. Each is also
  proved against the definition in its standard (`Cbc.CbcBlocks`, `Cmac.CmacIsRfc`,
  `Ccm.SealIsRfc`, `Base64Rfc`).

`dafny verify dfyconfig.toml` checks the whole project.

## Where the code is weaker than it looks

- `mpi_mod_int` is wrong for a divisor above 2^biH that is no power of two; `ModInt` has the
  failing number and the exact condition. No caller in the library uses such a divisor.
- `mpi_gcd(A, 0)` is 0 (`GcdMpi`).
- `mpi_exp_mod` returns N, not 0, for a base with sign -1, an odd exponent and a power divisible
  by N (`PowerModMeaning`); zero with that sign is such a base (`NegativeZero`).
- A DHM context that has never seen an X takes its unset blinding values for valid when X is 0
  and answers 0 (`UnsetPairFails`); `Session` has the exact condition over whole runs.
- A failed draw of random numbers leaves the DHM context with half a pair. The same X then gets a
  wrong secret without an error (`RetryAfterFailure`, `StaleSecret`); another X repairs it
  (`LongRun`, `RightUnlessDrawFailed`).
- The workspace test in `mpi_montmul` (bignum.c:1556) admits buffers too small for the loop
  (`TestIsTooWeak`); `exp_mod` always allocates enough.
- `ccm_auth_crypt` accepts exactly 0xFF00 bytes of additional data, which its documentation
  excludes, and formats their length in two octets where RFC 3610 has six (`LongestAddIsNotRfc`).
- The test of a fourth child on the slow path of `downheap` (ev.c:2278) can never succeed.

## Model

| member | source | states |
|---|---|---|
| `LimbOps.MulAdd` | ssserver/src/main/jni/mbedtls/library/bignum.c:1109-1168 | One MULADDC step: the low and high limb returned are exactly s*b + c + d, with no carry lost. |
| `BigNum.Mpi.MulHlp` | ssserver/src/main/jni/mbedtls/library/bignum.c:1109-1168 | The buffer from a given limb on gains exactly b times the source, the carry dying inside it; limbs below stay. |
| `BigNum.Mpi.SubHlp` | ssserver/src/main/jni/mbedtls/library/bignum.c:943-959 | The buffer loses exactly the source whenever that is not larger, the borrow dying inside it. |
| `BigNum.Mpi.Grow` | ssserver/src/main/jni/mbedtls/library/bignum.c:114-138 | The buffer has at least n limbs, old limbs in place, new ones zero, the value unchanged. |
| `BigNum.Mpi.Copy` | ssserver/src/main/jni/mbedtls/library/bignum.c:180-209 | The value is copied; a self copy changes nothing, copying an empty number frees the buffer, and otherwise it never shrinks. |
| `BigNum.Mpi.Lset` | ssserver/src/main/jni/mbedtls/library/bignum.c:290-303 | Any signed limb becomes the value, whatever was in the buffer. |
| `Compare.CmpAbs` | ssserver/src/main/jni/mbedtls/library/bignum.c:808-833 | The sign of abs(X) - abs(Y), for any leading zero limbs. |
| `Compare.CmpMpi` | ssserver/src/main/jni/mbedtls/library/bignum.c:838-866 | The sign of X - Y as integers, for either sign representation of zero. |
| `Compare.CmpInt` | ssserver/src/main/jni/mbedtls/library/bignum.c:871-882 | The sign of X - z. |
| `AddSub.AddAbs` | ssserver/src/main/jni/mbedtls/library/bignum.c:887-938 | abs(X) = abs(A) + abs(B) with carries running out of the buffer, for every aliasing of the three. |
| `AddSub.SubAbs` | ssserver/src/main/jni/mbedtls/library/bignum.c:964-1002 | Succeeds exactly when abs(B) <= abs(A), then abs(X) = abs(A) - abs(B); otherwise X is untouched. |
| `AddSub.AddMpi` | ssserver/src/main/jni/mbedtls/library/bignum.c:1007-1033 | X = A + B as integers under every aliasing; equal signs keep their sign even for zero. |
| `AddSub.SubMpi` | ssserver/src/main/jni/mbedtls/library/bignum.c:1038-1064 | X = A - B as integers under every aliasing; with opposite signs the sign is that of A even for zero. |
| `AddSub.AddInt` | ssserver/src/main/jni/mbedtls/library/bignum.c:1069-1080 | X = A + z; adding a digit to a number of sign + keeps the sign +. |
| `AddSub.SubInt` | ssserver/src/main/jni/mbedtls/library/bignum.c:1085-1096 | X = A - z; subtracting a digit from a number of sign - keeps the sign -, which reading "-0.." relies on. |
| `Multiply.MulMpi` | ssserver/src/main/jni/mbedtls/library/bignum.c:1173-1205 | X = A * B as integers, also when X is an operand; no carry leaves the buffer. |
| `Multiply.MulInt` | ssserver/src/main/jni/mbedtls/library/bignum.c:1210-1221 | X = A * z. |
| `Bits.Clz` | ssserver/src/main/jni/mbedtls/library/bignum.c:362-375 | The mask walk returns the number of leading zero bits. |
| `Bits.BitLen` | ssserver/src/main/jni/mbedtls/library/bignum.c:380-394 | n with 2^(n-1) <= abs(X) < 2^n, or 0 for zero. |
| `Bits.Lsb` | ssserver/src/main/jni/mbedtls/library/bignum.c:347-357 | The exponent of the largest power of two dividing a nonzero number. |
| `Shift.ShiftL` | ssserver/src/main/jni/mbedtls/library/bignum.c:715-760 | The value is multiplied by 2^count, limb moves and bit moves together. |
| `Shift.ShiftR` | ssserver/src/main/jni/mbedtls/library/bignum.c:765-803 | The magnitude is divided by 2^count, rounding down, also for counts beyond the buffer. |
| `IntDiv.DivDigit` | ssserver/src/main/jni/mbedtls/library/bignum.c:1287-1296 | One half-limb quotient digit, all in limb arithmetic: the estimate, lowered at most twice, is the exact digit. |
| `IntDiv.TestFits` | ssserver/src/main/jni/mbedtls/library/bignum.c:1290-1295 | While q and r are half limbs the wrapped products and sum of the digit test are exact, which the early exit of the loop is there for. |
| `IntDiv.DivNormalised` | ssserver/src/main/jni/mbedtls/library/bignum.c:1278-1313 | For a normalised divisor the two half-limb digits give the exact quotient and remainder, every product, sum and difference wrapping in a limb. |
| `IntDiv.IntDivInt` | ssserver/src/main/jni/mbedtls/library/bignum.c:1227-1317 | For u1 < d exactly (u1*2^biL + u0) / d and its remainder; otherwise both results are the all-ones limb. |
| `Division.TestDecides` | ssserver/src/main/jni/mbedtls/library/bignum.c:1381-1395 | The two-limb test: a failing estimate is too large, a passing one is at most one too large, for a divisor whose top limb is only normalised to biL-1 bits. |
| `Division.EstimateDigit` | ssserver/src/main/jni/mbedtls/library/bignum.c:1372-1395 | After the test loop the estimate is the true digit or one more. |
| `Division.SubtractDigit` | ssserver/src/main/jni/mbedtls/library/bignum.c:1397-1407 | One subtraction and at most one add-back leave the exact digit and a remainder in range. |
| `Division.Normalise` | ssserver/src/main/jni/mbedtls/library/bignum.c:1350-1357 | Both operands are scaled by the same 2^k, after which the bit length of the divisor leaves remainder biL-1 modulo biL. |
| `Division.FirstDigit` | ssserver/src/main/jni/mbedtls/library/bignum.c:1359-1368 | The leading digit is counted off and the divisor is restored. |
| `Division.DivLoop` | ssserver/src/main/jni/mbedtls/library/bignum.c:1370-1408 | Over all digits: quotient times divisor plus remainder stays the dividend, and the remainder ends below the divisor. |
| `Division.DivAbs` | ssserver/src/main/jni/mbedtls/library/bignum.c:1341-1408 | The quotient of the magnitudes, and their remainder still scaled by 2^k. |
| `Division.DivMpi` | ssserver/src/main/jni/mbedtls/library/bignum.c:1322-1432 | Truncated quotient and remainder for every sign, either result optional, zero divisor reported with nothing changed. |
| `Division.TruncDivMod` | ssserver/src/main/jni/mbedtls/library/bignum.c:1322-1432 | What these results mean: A = Q*B + R with abs(R) < abs(B) and R zero or of the sign of A. |
| `Division.ModMpi` | ssserver/src/main/jni/mbedtls/library/bignum.c:1453-1471 | The remainder in [0, B) for a positive modulus; a negative or zero one is refused. |
| `ModInt.ModInt` | ssserver/src/main/jni/mbedtls/library/bignum.c:1476-1528 | A mod b for every divisor the loop can handle, with the sign of A taken into account, and the errors for b <= 0; only b = 2 needs a limb. |
| `ModInt.ModRunExact` | ssserver/src/main/jni/mbedtls/library/bignum.c:1505-1516 | The half-limb loop is right for all numbers if b <= 2^biH or b divides 2^biL. |
| `ModInt.UnsafeFails` | ssserver/src/main/jni/mbedtls/library/bignum.c:1505-1516 | For every other divisor it is wrong: 2^biH * 2^biL gets remainder 0 because a shift drops a bit. |
| `ModInt.RightExactlyWhenSafe` | ssserver/src/main/jni/mbedtls/library/bignum.c:1505-1516 | So the loop is right for all numbers if and only if the divisor is one of these. |
| `Montgomery.MontgInit` | ssserver/src/main/jni/mbedtls/library/bignum.c:1533-1545 | mm * N[0] = -1 modulo 2^biL for every odd limb, by doubling the number of correct bits in wrapped arithmetic. |
| `Montgomery.MontRound` | ssserver/src/main/jni/mbedtls/library/bignum.c:1567-1576 | One round divides exactly by 2^biL, keeps T below N + B and no carry leaves its limbs. |
| `Montgomery.MontRounds` | ssserver/src/main/jni/mbedtls/library/bignum.c:1559-1577 | After all rounds T * R = A * B modulo N and T is below N + B. |
| `Montgomery.MontMul` | ssserver/src/main/jni/mbedtls/library/bignum.c:1550-1588 | For operands up to N the result is below N and congruent to A*B*R^-1; neither the real nor the dummy subtraction borrows past its buffer. |
| `Montgomery.WorkspaceExactly` | ssserver/src/main/jni/mbedtls/library/bignum.c:1565-1577 | The rounds stay inside the workspace if and only if it has 2(n+1) limbs, since the last one writes limb 2n+1. |
| `Montgomery.TestIsTooWeak` | ssserver/src/main/jni/mbedtls/library/bignum.c:1556-1557 | Every workspace of n+1 to 2n+1 limbs passes the test and is overrun. |
| `Montgomery.MontRed` | ssserver/src/main/jni/mbedtls/library/bignum.c:1593-1602 | The same with factor one: out of Montgomery form. |
| `ExpMod.PrepareRR` | ssserver/src/main/jni/mbedtls/library/bignum.c:1655-1668 | R^2 mod N, computed or taken from a correct cache, which is correct afterwards. |
| `ExpMod.BuildWindow` | ssserver/src/main/jni/mbedtls/library/bignum.c:1686-1709 | Table entry i holds A^i in Montgomery form for every index the windows use. |
| `ExpMod.ScanBit` | ssserver/src/main/jni/mbedtls/library/bignum.c:1729-1772 | One exponent bit keeps: X is the power for the bits already closed, the window holds the bits since. |
| `ExpMod.ScanExponent` | ssserver/src/main/jni/mbedtls/library/bignum.c:1711-1773 | After the whole exponent: X is the power for the closed part and fewer than wsize bits are left in the window. |
| `ExpMod.FinishWindow` | ssserver/src/main/jni/mbedtls/library/bignum.c:1775-1786 | The left-over window bits complete the exponent, for every number of them. |
| `ExpMod.PowerLoop` | ssserver/src/main/jni/mbedtls/library/bignum.c:1670-1791 | Table, scan, left-over bits and leaving Montgomery form give A^E mod N for every window size. |
| `ExpMod.ExpMod` | ssserver/src/main/jni/mbedtls/library/bignum.c:1607-1810 | Errors exactly for even or negative N or negative E; otherwise X is abs(A)^E mod N, corrected for a negative A, and the cache is left correct. |
| `ExpMod.PowerModMeaning` | ssserver/src/main/jni/mbedtls/library/bignum.c:1793-1797 | That value is congruent to A^E always, and lies in [0, N) except exactly when the sign of A is -1, E is odd and N divides A^E, where it is N; with sign +1 it is A^E mod N. |
| `ExpMod.CanonicalForNonNegative` | ssserver/src/main/jni/mbedtls/library/bignum.c:1793-1797 | For a base of value 0 or more and N > 1 it is A^E mod N if and only if not both the sign is -1 and E is odd. |
| `ExpMod.NegativeZero` | ssserver/src/main/jni/mbedtls/library/bignum.c:1793-1797 | The failing input with value 0: zero with sign -1 and exponent 1 give N. |
| `GcdInv.GcdMpi` | ssserver/src/main/jni/mbedtls/library/bignum.c:1815-1862 | 0 for B = 0 and otherwise the greatest common divisor, which it is if and only if B != 0 or A = 0; the loop terminates. |
| `GcdInv.OddGcd` | ssserver/src/main/jni/mbedtls/library/bignum.c:1837-1852 | The halving and subtracting loop keeps the odd part of the gcd and ends with it. |
| `GcdInv.HalveTriple` | ssserver/src/main/jni/mbedtls/library/bignum.c:1923-1948 | A halving keeps TU = U1*TA + U2*TB and is exact in all three numbers. |
| `GcdInv.InvLoop` | ssserver/src/main/jni/mbedtls/library/bignum.c:1921-1964 | The loop terminates with TV = 1 = V1*TA + V2*TB, both combinations kept throughout. |
| `GcdInv.InvMod` | ssserver/src/main/jni/mbedtls/library/bignum.c:1891-1981 | For any A, an empty one included: succeeds exactly when N > 1 and gcd(A, N) = 1, then 0 <= X < N and X*A = 1 mod N; otherwise the error tells which, and X is untouched. |
| `MillerRabin.PrimeIsStrong` | ssserver/src/main/jni/mbedtls/library/bignum.c:2108-2137 | For a prime, a^r is 1 or some a^(r*2^j) is -1, for every base. |
| `MillerRabin.IsWitness` | ssserver/src/main/jni/mbedtls/library/bignum.c:2105-2137 | A round declares a number composite if and only if the base is no strong probable prime base for it. |
| `MillerRabin.NeverRejectsPrime` | ssserver/src/main/jni/mbedtls/library/bignum.c:2046-2145 | No stream of answers makes the witness loop reject a prime. |
| `MillerRabin.MillerRabin` | ssserver/src/main/jni/mbedtls/library/bignum.c:2046-2145 | For any stream from the generator the verdict means what VerdictHolds says, by its answers: every base is the first usable one of at most 31 after one thrown away, their number is that of the table, only a base that fails the test makes Composite, GaveUp means 31 unusable answers and one more in its last round, RngFailed that the stream is used up; so NOT_ACCEPTABLE on a prime comes from the retry limit only. |
| `MillerRabin.VerdictIsDetermined` | ssserver/src/main/jni/mbedtls/library/bignum.c:2078-2137 | Two verdicts that hold for one stream of answers are the same: the answers decide whether a number is accepted, refused or given up. |
| `MillerRabin.DrawBase` | ssserver/src/main/jni/mbedtls/library/bignum.c:2086-2103 | An answer is cut to the bit length of W; the first of 31 strictly between 1 and W is the base, the 32nd is given up unseen. |
| `MillerRabin.CutIsShift` | ssserver/src/main/jni/mbedtls/library/bignum.c:2090-2094 | Cutting a number to k bits is the shift by the difference of the bit lengths. |
| `Radix.ReadString` | ssserver/src/main/jni/mbedtls/library/bignum.c:424-491 | Accepts exactly an optional minus sign and digits below the radix, in every radix from 2 to 16, and stores the number they denote; a wrong radix, an overlong hex string and a wrong character get their own errors. |
| `Radix.PutHex` | ssserver/src/main/jni/mbedtls/library/bignum.c:457-457 | A hex digit ORed into its limb adds digit * 16^j without touching what is there. |
| `Radix.WriteHlp` | ssserver/src/main/jni/mbedtls/library/bignum.c:496-518 | Appends the digits of the magnitude without leading zeros. |
| `Radix.WriteHex` | ssserver/src/main/jni/mbedtls/library/bignum.c:556-575 | Appends two hex digits for each byte from the first nonzero one on, "00" for zero. |
| `Radix.TextFits` | ssserver/src/main/jni/mbedtls/library/bignum.c:534-542 | Sign, digits and terminator never exceed the estimate n, for every radix and every number, byte pairs in radix 16 included. |
| `Radix.WriteString` | ssserver/src/main/jni/mbedtls/library/bignum.c:523-594 | Fails exactly when the buffer is below the estimate, else writes sign, digits and terminator within it. |
| `Radix.RoundTrip` | ssserver/src/main/jni/mbedtls/library/bignum.c:424-594 | What is written is well-formed and denotes the number written, in every radix. |
| `Radix.WriteThenRead` | ssserver/src/main/jni/mbedtls/library/bignum.c:424-594 | Reading what was written gives the same value. |
| `Radix.DigitTable` | ssserver/src/main/jni/mbedtls/library/bignum.c:406-418 | The digits are 0 to 9 and A to F, a to f are read as well, and no other character is a digit. |
| `Radix.EstimateIs` | ssserver/src/main/jni/mbedtls/library/bignum.c:534-542 | The estimate is one character for each bit, two bits or four bits, and three or four more to an even number. |
| `Dhm.SquaredPair` | ssserver/src/main/jni/mbedtls/library/dhm.c:304-317 | Squaring both blinding values keeps Vi^X * Vf = 1 mod P. |
| `Dhm.InversePair` | ssserver/src/main/jni/mbedtls/library/dhm.c:319-339 | A fresh Vi with Vf = Vi^-X satisfies it. |
| `Dhm.TransparentExactly` | ssserver/src/main/jni/mbedtls/library/dhm.c:364-383 | For a prime P not dividing GY the blinded secret is GY^X mod P if and only if Vi^X * Vf = 1 mod P. |
| `Dhm.UnsetPairFails` | ssserver/src/main/jni/mbedtls/library/dhm.c:295-317 | The failing input: with X = 0 and values that were never set the blinded secret is 0, the true one 1. |
| `Dhm.StaleSecret` | ssserver/src/main/jni/mbedtls/library/dhm.c:324-335 | After a failed draw has left v in Vi, the next secret with the same X is right if and only if v^(2X) = 1 mod P. |
| `Dhm.StaleExample` | ssserver/src/main/jni/mbedtls/library/dhm.c:324-335 | A wrong secret of that kind: 1 instead of 2 for P = 7. |
| `Dhm.Context.UpdateBlinding` | ssserver/src/main/jni/mbedtls/library/dhm.c:286-343 | From any state: a new X resets both values to 1, a known X squares them or draws a new pair. Drawing fails exactly if none of the first eleven answers, halved until below P, exceeds 1; Vi is then the twelfth or last answer and Vf stays. A success from a pair, or with a new X, leaves a pair for X. |
| `Dhm.DrawBelow` | ssserver/src/main/jni/mbedtls/library/dhm.c:321-335 | The first of the first eleven answers that exceeds 1 once halved below P is drawn; there is a draw exactly if there is such an answer. |
| `Dhm.Context.CalcSecret` | ssserver/src/main/jni/mbedtls/library/dhm.c:348-396 | For every X >= 0: a peer value outside [2, P-2] is refused with nothing changed, an unblinded call computes GY^X mod P, and a blinded one does if and only if the values it used are a pair. |
| `Dhm.Context.Session` | ssserver/src/main/jni/mbedtls/library/dhm.c:286-396 | Over any sequence of calls from a fresh context up to the first failure, whose reason is returned: secret i is GY^X mod P if and only if call i is not blinded, or its X is positive, or some earlier blinded call had a positive X. |
| `Dhm.Context.LongRun` | ssserver/src/main/jni/mbedtls/library/dhm.c:286-396 | The same for runs that go on after failures: a blinded secret is the true one while the X installed is positive and sound, and 0 before any positive X; a draw fails only for an X installed already. |
| `Dhm.SpoiledExactly` | ssserver/src/main/jni/mbedtls/library/dhm.c:324-335 | An X is spoiled exactly when a draw for it has failed and no other X has been installed since. |
| `Dhm.RightUnlessDrawFailed` | ssserver/src/main/jni/mbedtls/library/dhm.c:286-396 | So a blinded secret of such a run is right whenever a positive X was ever installed and no draw has failed since the present X was. |
| `Dhm.Context.RetryAfterFailure` | ssserver/src/main/jni/mbedtls/library/dhm.c:308-335 | A call whose draw fails and the same call again: the second succeeds, with the factor v^(2X) in its secret. |
| `Wakeup.RunKeepsInv` | ssserver/src/main/jni/libev/ev.c:2440-2571 | The protocol invariant holds in every state of every run, for any number of senders and any interleaving. |
| `Wakeup.NoLostWakeup` | ssserver/src/main/jni/libev/ev.c:2440-2486 | If the loop is blocked on an empty pipe while a send is not yet fed, some sender is in flight that will write the pipe. |
| `Wakeup.NeverSleepsOverSend` | ssserver/src/main/jni/libev/ev.c:3631-3693 | Once all senders have returned, a blocked loop with an empty pipe owes nothing. |
| `Wakeup.EverySendIsFed` | ssserver/src/main/jni/libev/ev.c:2490-2571 | In every run, for any number of senders and any interleaving: whatever is owed is fed within six fair stretches, in each of which the senders at work when it begins return and the loop makes a bounded number of steps or sleeps on an empty pipe. Senders that come later may stop anywhere. |
| `Wakeup.PassFeeds` | ssserver/src/main/jni/libev/ev.c:2490-2553 | A pass of pipecb that finds a watcher marked, with its flag up and untested or its mark ahead, feeds it before the loop goes on, under any interleaving. |
| `Wakeup.ReachedIsFed` | ssserver/src/main/jni/libev/ev.c:3683-3693 | From any reachable state with a watcher flagged and a byte in the pipe, or pipecb pending: a bounded number of loop steps feeds it, whatever senders do in between. |
| `WakeupHistory.OwedExactly` | ssserver/src/main/jni/libev/ev.c:4949-4954 | In every run a watcher is owed a feed exactly when it was marked at some step and not fed since. |
| `WakeupHistory.MarkedExactly` | ssserver/src/main/jni/libev/ev.c:2545-2549 | A watcher is marked exactly when it was sent to and the loop has not taken that mark away since. |
| `WakeupHistory.UnmarkedWasSent` | ssserver/src/main/jni/libev/ev.c:2545-2547 | The loop takes a mark away only if it was made by a sender and not taken away before. |
| `WakeupHistory.FeedFollowsUnmark` | ssserver/src/main/jni/libev/ev.c:2545-2549 | The loop gets to a feed only by taking that mark away in its step before. |
| `WakeupHistory.FedWasSent` | ssserver/src/main/jni/libev/ev.c:2525-2552 | Nothing is fed that was not sent: every feed answers a mark that a sender made and no feed before it has answered. |
| `WakeupHistory.SentBetweenFeeds` | ssserver/src/main/jni/libev/ev.c:2525-2552 | Between two feeds of a watcher it was sent to again, after the first had taken its mark. |
| `WakeupHistory.LeavesEarlyExactly` | ssserver/src/main/jni/libev/ev.c:2443-2448 | A sender leaves without a wakeup exactly if the flag of its kind was raised and pipecb has not lowered it since. |
| `WakeupHistory.SleepsExactly` | ssserver/src/main/jni/libev/ev.c:3634-3640 | The loop blocks exactly if it may and no skip is announced that nobody has taken back. |
| `WakeupHistory.WritesExactly` | ssserver/src/main/jni/libev/ev.c:2451-2486 | A sender is about to write exactly if it found the loop in its poll section and has not written since. |
| `WakeupHistory.CallbackExactly` | ssserver/src/main/jni/libev/ev.c:3677-3693 | pipecb runs exactly if poll has reported the pipe or the loop has seen a skip since the last dispatch. |
| `WakeupHistory.ReadsExactly` | ssserver/src/main/jni/libev/ev.c:2495-2518 | pipecb reads the pipe exactly if poll has reported it. |
| `WakeupHistory.BytesExactly` | ssserver/src/main/jni/libev/ev.c:2459-2518 | What senders have written is in the pipe or has been read. |
| `Pending.Queues.FeedEvent` | ssserver/src/main/jni/libev/ev.c:1993-2011 | A watcher gets at most one slot, which gathers the events; history grows by this feed and slots and pending fields stay in agreement. |
| `Pending.Queues.ClearPending` | ssserver/src/main/jni/libev/ev.c:3813-3829 | The slot is left to a dummy, the events owed are returned, queue lengths stay. |
| `Pending.Queues.InvokePending` | ssserver/src/main/jni/libev/ev.c:3299-3318 | With callbacks that feed, clear or dispatch in any way: history and unused callback bodies are those of Dispatched, a dispatch that knows no queues; a return leaves all queues empty and nobody waiting. |
| `Pending.NextIsUnique` | ssserver/src/main/jni/libev/ev.c:3299-3318 | At any time only one watcher can be called next: of the highest priority that waits, the one that waits since last. |
| `Pending.DispatchExplained` | ssserver/src/main/jni/libev/ev.c:3299-3318 | A dispatch ends with nobody waiting; every call has run a callback body as long as there were any, in order; and each feed and clear was made exactly as often as these bodies ask for it. |
| `Pending.WaiterIsServed` | ssserver/src/main/jni/libev/ev.c:3299-3318 | Whoever waits when a dispatch begins is called during it, unless a callback that it runs asks for clearing it. |
| `Pending.EveryWaiterIsCalled` | ssserver/src/main/jni/libev/ev.c:3310-3314 | With callbacks that do nothing, everybody who waits is called. |
| `Pending.StaysWaiting` | ssserver/src/main/jni/libev/ev.c:1993-2011 | A watcher waits since its first feed until it is called or cleared. |
| `Pending.WaitEnds` | ssserver/src/main/jni/libev/ev.c:3299-3318 | Whoever waited and no longer does was called or cleared in between. |
| `Pending.LaterFirst` | ssserver/src/main/jni/libev/ev.c:3299-3318 | Within a priority the later waiter is called first, whatever callbacks do in between. |
| `TimerHeap.Heap.UpHeap` | ssserver/src/main/jni/libev/ev.c:2332-2352 | Restores the heap when one node is too early, keeping the nodes and every back-index. |
| `TimerHeap.Heap.MinChild` | ssserver/src/main/jni/libev/ev.c:2263-2281 | The earliest of up to four children, on the fast and on the slow path. |
| `TimerHeap.Heap.DownHeap` | ssserver/src/main/jni/libev/ev.c:2252-2294 | Restores the heap when one node is too late, keeping the nodes and every back-index. |
| `TimerHeap.Heap.AdjustHeap` | ssserver/src/main/jni/libev/ev.c:2354-2362 | Restores the heap after any change of one node. |
| `TimerHeap.Heap.ReHeap` | ssserver/src/main/jni/libev/ev.c:2364-2374 | Any order becomes a heap of the same nodes with right back-indices. |
| `TimerHeap.RootIsFirst` | ssserver/src/main/jni/libev/ev.c:2245-2374 | In a 4-heap no node is before the root. |
| `Timers.Timers.Start` | ssserver/src/main/jni/libev/ev.c:3904-3927 | The timer enters the heap at its time relative to now, an active one is left alone. |
| `Timers.Timers.Stop` | ssserver/src/main/jni/libev/ev.c:3929-3958 | The timer leaves the heap and its pending event is dropped; its remaining time is relative again. |
| `Timers.Timers.Again` | ssserver/src/main/jni/libev/ev.c:3960-3986 | A repeating timer runs again from now, any other is stopped; nothing stays pending. |
| `Timers.Timers.Expire` | ssserver/src/main/jni/libev/ev.c:3353-3376 | One round: a repeating root is back one period later, or now if that has passed; any other is stopped. |
| `Timers.Timers.FeedReverseDone` | ssserver/src/main/jni/libev/ev.c:2019-2026 | The feeds happen in the reverse of the order collected. |
| `Timers.Timers.Reify` | ssserver/src/main/jni/libev/ev.c:3346-3381 | Terminates; exactly the timers before now fire, each once, in order of their times; one-shot ones leave, each repeating one is back one period after the time it fired for, or now if that has passed as well, and no timer before now is left. |
| `Timers.CalledInExpiryOrder` | ssserver/src/main/jni/libev/ev.c:2013-2026 | Two fired timers of one priority, the earlier not already pending, are called in order of expiry in every later history, unless the earlier was cleared. |
| `PollSet.Poll.Modify` | ssserver/src/main/jni/libev/ev_poll.c:52-87 | The pollfd array and the index map stay in bijection and exactly this descriptor is set, replaced or removed by swapping in the last. |
| `PollSet.PollBitsMean` | ssserver/src/main/jni/libev/ev_poll.c:73-75 | EV_READ is asked for as POLLIN, EV_WRITE as POLLOUT, and nothing else is. |
| `Interest.IoLoop.FdChange` | ssserver/src/main/jni/libev/ev.c:2133-2147 | A descriptor is marked, and is on the list of changes exactly once exactly when it is marked. |
| `Interest.IoLoop.Start` | ssserver/src/main/jni/libev/ev.c:3857-3882 | The watcher becomes the first of its descriptor, which is marked; an active one changes nothing; all else stays in agreement. |
| `Interest.IoLoop.Stop` | ssserver/src/main/jni/libev/ev.c:3884-3902 | The watcher leaves the list of its descriptor, which is marked; an inactive one changes nothing. |
| `Interest.WlistDel` | ssserver/src/main/jni/libev/ev.c:3788-3801 | The first occurrence is removed and the rest keeps its order. |
| `Interest.IoLoop.ReifyFd` | ssserver/src/main/jni/libev/ev.c:2104-2128 | One change: the descriptor is unmarked and registered for the OR of its watchers. |
| `Interest.IoLoop.FdReify` | ssserver/src/main/jni/libev/ev.c:2074-2131 | Afterwards poll is asked for exactly what active watchers of each descriptor want, and not at all for a descriptor nobody wants. |
| `Interest.IoLoop.Run` | ssserver/src/main/jni/libev/ev.c:2074-2147 | The same after any sequence of starts and stops, whose last one per watcher decides whether it is active. |
| `Cbc.CryptCbc` | ssserver/src/main/jni/mbedtls/library/aes.c:876-935 | The block loop is one-shot CBC in either direction and leaves the chaining value. |
| `Cbc.CbcAppend` | ssserver/src/main/jni/mbedtls/library/aes.c:876-935 | CBC of a concatenation is CBC of the parts, the chaining value carried over. |
| `Cbc.CbcInverse` | ssserver/src/main/jni/mbedtls/library/aes.c:876-935 | Decryption undoes encryption for every key, IV and message of whole blocks. |
| `Cbc.CbcBlocks` | ssserver/src/main/jni/mbedtls/library/aes.c:876-935 | Block by block as section 6.2 of NIST SP 800-38A defines it: each ciphertext block is the cipher of the plaintext block xor the ciphertext block before, or the IV, and back. |
| `Cbc.LeavesLastBlock` | ssserver/src/main/jni/mbedtls/library/aes.c:912-931 | The IV left behind is the last ciphertext block. |
| `Cbc.AddPkcsPadding` | ssserver/src/main/jni/mbedtls/library/cipher.c:459-467 | The block is filled with bytes that all hold their number. |
| `Cbc.GetPkcsPadding` | ssserver/src/main/jni/mbedtls/library/cipher.c:469-492 | Accepts exactly well-formed padding and returns the data length, for every block. |
| `Cbc.AcceptsExactly` | ssserver/src/main/jni/mbedtls/library/cipher.c:469-492 | Well-formed means: some data followed by n bytes of value n. |
| `Cbc.PaddingFills` | ssserver/src/main/jni/mbedtls/library/cipher.c:459-467 | A message gets 1 to bs bytes that all hold their number and fill up its last block. |
| `Cbc.Context.Update` | ssserver/src/main/jni/mbedtls/library/cipher.c:319-402 | Of all bytes fed so far less than a block (encryption) or the last one to bs bytes (decryption) are held back, the rest has gone through CBC. |
| `Cbc.Context.Finish` | ssserver/src/main/jni/mbedtls/library/cipher.c:626-697 | What it adds completes the one-shot result, in both directions, padded or not, with the same errors. |
| `Cbc.RefusedExactly` | ssserver/src/main/jni/mbedtls/library/cipher.c:640-694 | A message is refused exactly for an incomplete block where none may be, nothing to take a padding off, or a last block that is not well padded. |
| `Cbc.CryptChunks` | ssserver/src/main/jni/mbedtls/library/cipher.c:270-697 | For every split of the input into updates the concatenated output is one-shot CBC of the padded message, or its inverse. |
| `Cbc.RoundTrip` | ssserver/src/main/jni/mbedtls/library/cipher.c:270-697 | Decryption under any split recovers what was encrypted under any other. |
| `Cmac.MultiplyByU` | ssserver/src/main/jni/mbedtls/library/cmac.c:85-131 | The shift loop with its overflow and mask computes the doubled block; other block sizes are refused. |
| `Cmac.DoubleIsTimesU` | ssserver/src/main/jni/mbedtls/library/cmac.c:85-131 | The doubled block is u times the polynomial of the block modulo u^128 + u^7 + u^2 + u + 1 or u^64 + u^4 + u^3 + u + 1. |
| `Cmac.GenerateSubkeys` | ssserver/src/main/jni/mbedtls/library/cmac.c:138-166 | K1 and K2 are the encrypted zero block doubled once and twice. |
| `Cmac.CmacIsRfc` | ssserver/src/main/jni/mbedtls/library/cmac.c:138-369 | Sections 2.3 and 2.4 of RFC 4493: a complete last block goes with the encrypted zero block times u, a shorter one with 10..0 and that times u again, encrypted on top of the chaining value. |
| `Cmac.Pad` | ssserver/src/main/jni/mbedtls/library/cmac.c:184-200 | The partial block, 0x80 and zeros. |
| `Cmac.CmacSplit` | ssserver/src/main/jni/mbedtls/library/cmac.c:242-369 | Whole blocks before a nonempty rest matter only through the chaining value. |
| `Cmac.Context.Update` | ssserver/src/main/jni/mbedtls/library/cmac.c:242-308 | Of a nonempty message the last 1 to bs bytes are held back, the blocks before have been absorbed, whatever the split. |
| `Cmac.Context.Finish` | ssserver/src/main/jni/mbedtls/library/cmac.c:310-369 | The tag is one-shot CMAC of everything fed and the state is fresh again. |
| `Cmac.CmacChunks` | ssserver/src/main/jni/mbedtls/library/cmac.c:202-369 | For every split into updates the tag equals one-shot CMAC. |
| `CcmFormat.BEInjective` | ssserver/src/main/jni/mbedtls/library/ccm.c:189-193 | The length field determines the length, among those that pass the overflow check. |
| `CcmFormat.BEMeans` | ssserver/src/main/jni/mbedtls/library/ccm.c:189-196 | The length field is the big-endian number, and the overflow check passes exactly below 256^q. |
| `CcmFormat.PrefixFree` | ssserver/src/main/jni/mbedtls/library/ccm.c:168-232 | No formatted input is a prefix of the one for another nonce, tag length, additional data or message; so formatting is injective. |
| `CcmFormat.FormatIsRfc` | ssserver/src/main/jni/mbedtls/library/ccm.c:165-232 | Of the accepted inputs, exactly those with less than 0xFF00 bytes of additional data are formatted as section 2.2 of RFC 3610 says, whose first block has the flags 64 * Adata + 8 * (M - 2) / 2 + L - 1 as a number. |
| `CcmFormat.FlagsAreRfc` | ssserver/src/main/jni/mbedtls/library/ccm.c:182-185 | The flags that the code puts together bit by bit are that number. |
| `CcmFormat.LongestAddIsNotRfc` | ssserver/src/main/jni/mbedtls/library/ccm.c:155-166 | The failing input: 0xFF00 bytes, which the documented bound excludes, are accepted and formatted otherwise. |
| `CcmFormat.CountersDistinct` | ssserver/src/main/jni/mbedtls/library/ccm.c:234-299 | The counter blocks of one message, that of the tag included, are pairwise distinct. |
| `CcmFormat.CounterIsNotFirst` | ssserver/src/main/jni/mbedtls/library/ccm.c:168-247 | No counter block is ever the first block of a MAC. |
| `CcmFormat.CtrIsStream` | ssserver/src/main/jni/mbedtls/library/ccm.c:234-290 | The message is masked by the first octets of the encrypted counter blocks, as section 2.3 of RFC 3610 says. |
| `Ccm.Increment` | ssserver/src/main/jni/mbedtls/library/ccm.c:287-289 | The byte-wise increment in place is +1 of the counter, with its carries. |
| `Ccm.NextCounter` | ssserver/src/main/jni/mbedtls/library/ccm.c:283-289 | Counter block i becomes counter block i + 1. |
| `Ccm.FirstBlock` | ssserver/src/main/jni/mbedtls/library/ccm.c:168-193 | The first byte is 64 for additional data, 8 times (t - 2) / 2 and q - 1; then come nonce and big-endian length; what is left of a length that does not fit is returned. |
| `Ccm.MacAdd` | ssserver/src/main/jni/mbedtls/library/ccm.c:200-232 | The CBC-MAC goes over the length of the additional data, the data and zeros. |
| `Ccm.CryptLoop` | ssserver/src/main/jni/mbedtls/library/ccm.c:255-290 | The output is the input under the counter blocks from 1 on, and the MAC has gone over the padded plaintext in either direction. |
| `Ccm.AuthCrypt` | ssserver/src/main/jni/mbedtls/library/ccm.c:137-302 | Refuses exactly a tag length, nonce length, additional data above 0xFF00 bytes or a length that it tests for; otherwise output and tag are those of the formatted input. |
| `Ccm.EncryptAndTag` | ssserver/src/main/jni/mbedtls/library/ccm.c:307-315 | Refuses the same inputs, else delivers ciphertext and tag of that formatting, which SealIsRfc says are those of RFC 3610. |
| `Ccm.SealIsRfc` | ssserver/src/main/jni/mbedtls/library/ccm.c:137-315 | With less than 0xFF00 bytes of additional data, the ciphertext is the message under the key stream from counter block 1 on, and the tag the CBC-MAC of the standard's input under counter block 0, cut to length (RFC 3610, sections 2.2 and 2.3). |
| `Ccm.AuthDecrypt` | ssserver/src/main/jni/mbedtls/library/ccm.c:320-349 | Succeeds exactly if the input is acceptable and the tag is that of the decrypted message; a wrong tag leaves only zeros in the output. |
| `Ccm.RoundTrip` | ssserver/src/main/jni/mbedtls/library/ccm.c:307-349 | Decrypting an encryption with its tag returns success and the message. |
| `Ccm.OpensExactly` | ssserver/src/main/jni/mbedtls/library/ccm.c:320-349 | A ciphertext and tag open to a message if and only if encrypting that message gives them. |
| `Base64.Encode` | ssserver/src/main/jni/mbedtls/library/base64.c:77-139 | The encoding of RFC 1521, its length and the exact condition for the buffer to suffice. |
| `Base64Rfc.TablesAreAlphabet` | ssserver/src/main/jni/mbedtls/library/base64.c:37-70 | The encoder's table is the alphabet A-Z a-z 0-9 + /, and the decoder's its inverse, with = as padding and nothing else accepted. |
| `Base64Rfc.EncodingIsText` | ssserver/src/main/jni/mbedtls/library/base64.c:104-133 | For any bytes the characters carry their bits six at a time, filled up with zero bits and padding to a multiple of four characters (RFC 1521, section 5.2). |
| `Base64.Scan` | ssserver/src/main/jni/mbedtls/library/base64.c:151-187 | The first pass accepts exactly the layouts and contents described and counts characters and paddings. |
| `Base64.KeptIsLayout` | ssserver/src/main/jni/mbedtls/library/base64.c:151-223 | On accepted input the second pass sees what the first has counted. |
| `Base64.WritesAtMost` | ssserver/src/main/jni/mbedtls/library/base64.c:195-223 | For every accepted input, odd group counts and stray padding included, the second pass writes at most the n bytes computed by the first. |
| `Base64.Decode` | ssserver/src/main/jni/mbedtls/library/base64.c:144-228 | Errors exactly for unacceptable input, never writes beyond dlen, reports the size needed, and otherwise delivers the decoded bytes. |
| `Base64.RoundTrip` | ssserver/src/main/jni/mbedtls/library/base64.c:77-228 | Decoding an encoding, with LF or CRLF put in anywhere, gives the original bytes, and a buffer of their length suffices. |

## Left out

- Division.DivMpi: requires that Q is no operand, or a nonnegative one and R is not asked for, because bignum.c:1413 reads `A->s` after Q has been written.
- Division.ModMpi: the result may not be the modulus object, which the loop still reads after writing the result.
- Montgomery.MontMul: requires a workspace of 2(n+1) limbs or one that the test refuses; sizes in between pass the test and are overrun (`TestIsTooWeak`).
- ExpMod.ExpMod: A and N must have limbs, the cache must be empty or hold R^2 mod N, and the result may not be the exponent or the modulus.
- ModInt.ModInt: claims A mod b for the divisors of `Safe` only; for others the result is `ModRun` and is wrong for some A.
- Dhm.Context.CalcSecret: requires X >= 0, as a number read from bytes is, and P an odd prime.
- Dhm.Context.UpdateBlinding: random numbers are a stream of answers given by the caller; the end of the stream counts as a failed draw.
- Dhm.Context.Session: ends with the first failing call; `LongRun` goes on, and says nothing of the secrets for a spoiled X, which `StaleSecret` describes.
- MillerRabin.MillerRabin: the generator is a stream of limb buffers; its distribution and hence the error probability are not modelled.
- Timers.Timers.Reify: requires nonnegative repeat values, which the source asserts; time is a real number, without rounding.
- Timers.CalledInExpiryOrder: says nothing for an earlier timer that was already pending, since its slot keeps its place.
- Interest.IoLoop.Stop: clearing the pending event of a stopped watcher is modelled in `Pending`, not here.
- Interest.IoLoop.Start: the array of descriptors grows just before the watcher is marked active instead of just after.
- Radix.WriteThenRead: requires a buffer below a quarter of the address space, as the hex reader does.
- Base64.Decode: a null buffer is a buffer of length 0, except that the source reports it as too small even when nothing is to be written.
- Cbc.Context.Update: the in-place call with identical input and output buffers, which the source allows for whole blocks, is not modelled.
- Allocation failure and the limit of 10000 limbs.
- MULADDC in assembler: the portable meaning d += s*b with carry is modelled; ORs of disjoint bits are written as sums.
- Pointers into buffers are offsets; linked watcher lists are sequences; the spare slots of the heap array are not kept.
- Prime generation, small factor tests, binary import and export, and the byte output of the shared secret.
- AES, DES, Camellia, Blowfish and ARC4 internals, GCM, CFB, CTR and stream modes, and the other padding schemes.
- Wakeup.EverySendIsFed: poll reports the pipe whenever there is something in it, as the kernel does for a pipe.
- Weak memory: the wakeup protocol is sequentially consistent, which the fences are there for.
- Periodic, idle, signal, child, stat, embed and fork watchers, and the epoll, kqueue, port, select and win32 backends.
- Key setup, context allocation and zeroing of secrets, timing behaviour, and the JNI wrapper.
