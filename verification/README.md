# Verified models of the wallet's arithmetic, hashes and ledger

The repository is a small blockchain wallet: device firmware with its own cryptography
(`stm32l431/crypto`) and a simulator of devices around a main chain (`blockchain`). This project models
its five calculating parts and proves what they promise.

**Elliptic curves** (`ecc.c`, secp256r1). Numbers are 32-digit byte arrays changed in place by loops that
carry and borrow. `Digits`, `Bits`, `Carry`, `Vli`, `VliSum`, `VliProduct`, `P256`, `VliInverse` and
`VliModMult` prove each routine against integers: the column-wise products, the fast reduction modulo the
field prime, the binary-GCD inverse and the shift-and-subtract reduction. `CoZ` and `Points` are the
Jacobian and co-Z formulas, `Curves` and `Scalar` the chord-and-tangent addition and its multiples, `Orders`
which multiples meet. `LadderSteps`, `Rungs` and `LadderEnds` say what the Montgomery ladder computes and
exactly when its single inversion ends, and `Ladder` is the ladder in place. `Joint`, `JointRounds` and
`JointFactors` do the same for Shamir's trick; `Ecdsa` is signing and verification, `Ecdh` key generation, the
public-key check and the shared secret. `Modular` and `Field` hold congruence, Bezout and primes.

**Bignum and RSA** (`crypt_bignum.cpp`, `crypt_rsa.cpp`). A number is the value of the first `length` bytes
of a buffer (`Bignum`, `BignumMul`, `BignumMod`, `BignumExp`). `Fermat` proves Fermat's little theorem from
the binomial theorem; `Rsa` proves that decryption undoes encryption, that blinding is invisible, and that
both branches of `rsa_dec` compute the same number.

**Keccak sponge** (`crypt_sha3.c`, `KeccakF-1600-reference.c`). `KeccakSpec` is the permutation of section 3
of FIPS 202 on bits and `SpongeSpec` the sponge of sections 4 and 5.1; `KeccakRounds` writes the 24 rounds out as
bit equations with the published constants. `Words`, `KeccakWords`, `Keccak` and `KeccakTables` refine the
permutation to pairs of 32-bit words changed in place; `Sponge` refines the sponge to the queue-based context. There
is no 01 suffix, so a digest is KECCAK[c] of section 5.2, not SHA3.

**SHA-256** (`crypt_sha256.c`, `.h`). `Sha256Spec` is section 6.2 of FIPS 180-4; `Sha256Rounds` and `Sha256`
are the in-place 16-word schedule with rotated register names and the streaming context. `Sha256Roots` derives the
constants from roots of primes. `WordVectors` relates words to bit-vectors, on which `Sha256Vectors` and `Sha256Answer`
evaluate the digest of a published example of two blocks.

**DAG and ledger** (`layer.cpp`, `layer_mainchain.cpp`). `Layer` has the transactions and the traversals
that count, collect and clear them; `Groups` and `Mainchain` the message queue and the regrouping of
devices; `Accounts` and `Balances` what settled deals do to the accounts, `Deals` what becomes of queued messages,
and `Ledger` the step that lets queued transactions into the graph and moves tokens. `Views` is a transition system on
values: what a queued transaction may do to tips, accounts and notices, and what a turn of the main chain does. `Ledger`
proves that the linked nodes follow it, message by message and turn by turn. The outcomes of address checks,
the entries that balance checks read and the random choice of tips are arbitrary, so the invariants hold whatever
they are.

## How the model is built

Every routine that changes arrays, fields or linked nodes is a method on arrays or class objects, proved
against functions on values; lemmas relate those functions to the mathematics. Ghost fields record what a
context has absorbed, which nodes exist and whose tokens have moved. Integer widths are explicit: bytes and
32-bit words are subset types, sums and shifts are cut where the code cuts them.

Facts about the curve and the key that no routine checks are hypotheses. `Scalar.GroupLaw` says that the
field prime is prime and that addition of curve points is associative (closure, commutativity and inverses
are proved). `Joint.Standard` adds that the order is prime and is the order of the base point.
`Rsa.RsaKey.Moduli` and `CrtParts` are the relations of an RSA key. `Ledger.Run` assumes that every device starts
in group 0 and no device is listed twice: `blockchain.cpp` numbers the devices of the list, but leaves their group
numbers as they were allocated.

A call of `vli_modInv` on 0 never comes back (`VliInverse.ZeroLoops`). Methods that may reach one return `ends`,
and their contracts say exactly when it is true; if it is false, the original does not return.

## Where the code does less than it seems to

- The ladder inverts 0 exactly if x is 0, the blinding coordinate is 0 modulo p, or a multiple it touches is
  infinity (`LadderEnds.InvertedIff`). For points of the order n of the base point the last is so for the
  scalars n - 1 and n (`LadderEnds.InvertedOfOrder`, `LadderEnds.LastScalarFails`). There is a point with x = 0 that
  `ecc_valid_public_key` accepts (`Ladder.ZeroXPoint`). So `ecc_make_key` and `ecdsa_sign` do not return for random
  numbers that reduce to n - 1. For scalars 0 and 1 the ladder would read past the scalar
  (`Ladder.FirstIndexIff`): random numbers 1 and n + 1, and for `ecdsa_sign` also n, are excluded.
- `ecdsa_verify` does not return on every valid signature. A round of Shamir's trick outside general position
  makes z 0 for good (`JointRounds.RoundFalls`, `JointRounds.RoundFollows`). `JointFactors.ShamirClearIff` gives the
  exact condition on u1, u2 and d, `JointFactors.VerifyLoops` a signature that meets the standard and fails it, and
  `Ecdsa.SignThenVerify` the composed theorem.
- `ecdsa_sign` does not look at s. It returns s = 0, which `ecdsa_verify` refuses, exactly if n divides hash + r d
  (`JointFactors.ZeroIff`; r is fixed by the nonce), and `JointFactors.ZeroSigned` gives such a hash, for key 2 and
  nonce 4. `Ecdsa.SignThenVerify` states acceptance under that condition.
- `_modexp` reads an exponent of 0 as 1 (`BignumExp.ModExpExact`, `BignumExp.ZeroExponentFails`).
- The comments of `_modsub`, `_modmul` and `_modexp` allow the result to be any operand, but the code overwrites the
  modulus while it still needs it. `BignumExp.SharedDifferenceIff`, `BignumExp.SharedProductIff` and
  `BignumExp.SharedPowerIff` say when the result is right all the same, and each has an input where it is not.
- The comment of `_gcd` gives the result the length of the shorter operand, which is too short exactly if an operand is
  0 and the other one is longer (`BignumExp.GcdRoom`, `BignumExp.GcdRoomFails`).
- `_sub` with a single byte writes only as many digits as its operand has, so blinding in `rsa_dec` can read stale
  bytes of p - 1, unless the top bytes of p and q are not 0 (`Rsa.StaleDigits`). `Rsa.RsaKey.DecryptStandard` says
  what is computed either way, and that it is the right power if `Rsa.RsaKey.FullPrimes` holds.
- Blinding stores the longer exponent in the key. A later call reads only its first `len` bytes, so the
  contract of `Rsa.RsaKey.DecryptStandard` speaks of the exponent before the call; `Rsa.StoredExponent` says when
  the later call still decrypts by the stored exponent, and `Rsa.SecondCallFails` shows that it can go wrong.
- The CRT branch of `rsa_dec` reads dp = 0 or dq = 0 as 1. Its result is right exactly if the content is then 0 or 1
  modulo that prime (`Rsa.ShareIff`, `Rsa.CrtIff`, `Rsa.RsaKey.DecryptCrt`).
- The ledger keeps the sum of tokens only if deals name listed devices
  (`Accounts.TotalKept`, `Accounts.UnlistedSenderMakesTokens`).
- `transaction_verify` overwrites the sender's place in the list with the length that `rsa_enc` returns, at most 4, and
  then compares the deal with the tokens of the entry at that place (`Ledger.TransactionVerify`). For every amount that
  is a comparison with the sender exactly if both entries have the same tokens (`Balances.CheckRightIff`); otherwise a
  sender without tokens can pass, and one with enough can be refused (`Balances.WrongEntry`). An accepted transaction
  moves its tokens without wrap-around exactly if the senders of its links cover them in turn (`Ledger.LinksExactIff`),
  which a comparison with the sender would not ensure either (`Balances.SpentTwice`); over whole runs see
  `Balances.AllExactIff` and `Ledger.Run`.
- `ledger_recv` hands the notice itself, not its copy, to the device's queue. That cuts off every message behind it
  (`Ledger.LedgerRecv`, `Ledger.NothingLostIff`, `Ledger.TransferLost`).
- `ecdh_shared_secret` cannot fail: no curve point has both coordinates 0 (`Ecdh.SharedSecret`).
- Unlinking in `connect_recv` goes through `prev`, which is set only once an earlier message has been passed. That is
  sound exactly because connect messages come first (`Mainchain.Remove`, `Mainchain.InsertsKeepOrder`), which
  `Ledger.Running` keeps.

## Model

| member | source | states |
|---|---|---|
| `Vli.IsZero` | stm32l431/crypto/ecc.c:122-133 | true exactly when the 32-digit number is 0 |
| `Vli.TestBit` | stm32l431/crypto/ecc.c:136-139 | nonzero exactly when that binary digit of the number is 1 |
| `Vli.NumDigits` | stm32l431/crypto/ecc.c:142-152 | the length up to the highest nonzero digit |
| `Vli.NumBits` | stm32l431/crypto/ecc.c:155-173 | the least n with the number below 2^n |
| `Vli.Cmp` | stm32l431/crypto/ecc.c:186-201 | the sign of the difference of the two numbers |
| `VliSum.Lshift` | stm32l431/crypto/ecc.c:204-217 | result + carry * 2^256 = input * 2^shift, also when result and input are the same array |
| `VliSum.Rshift1` | stm32l431/crypto/ecc.c:220-232 | the number becomes its half, rounded down |
| `VliSum.Add` | stm32l431/crypto/ecc.c:235-249 | result + carry * 2^256 = left + right, whichever arrays coincide |
| `VliSum.Sub` | stm32l431/crypto/ecc.c:252-266 | result - borrow * 2^256 = left - right, whichever arrays coincide |
| `VliSum.ModAdd` | stm32l431/crypto/ecc.c:296-303 | (left + right) mod m for reduced operands; for unreduced ones whose sum is below 2^256 + m it is the sum less m at most once, which is what signing a hash above the order relies on |
| `VliSum.ModSub` | stm32l431/crypto/ecc.c:307-315 | (left - right) mod m for reduced operands |
| `VliProduct.ColumnsAreProduct` | stm32l431/crypto/ecc.c:269-292 | the columns of digit products, each at its weight, add up to the product of two digit strings of any lengths |
| `VliProduct.MultColumn` | stm32l431/crypto/ecc.c:269-292 | the inner loop of vli_mult adds a whole column to the 24-bit accumulator without losing a carry |
| `VliProduct.Mult` | stm32l431/crypto/ecc.c:269-292 | the exact double-width product |
| `VliProduct.ColumnSymmetric` | stm32l431/crypto/ecc.c:823-849 | a column of a square is its upper part plus its mirrored lower part |
| `VliProduct.SquareColumn` | stm32l431/crypto/ecc.c:823-849 | the inner loop of vli_square, with its doubled cross terms, adds the same column as vli_mult would |
| `VliProduct.Square` | stm32l431/crypto/ecc.c:823-849 | the exact double-width square, so the value vli_mult computes for equal operands |
| `P256.CombinationIsCongruent` | stm32l431/crypto/ecc.c:496-730 | t + 2 s1 + 2 s2 + s3 + s4 - d1 - d2 - d3 - d4 of section D.2.3 of FIPS 186-4 differs from every 512-bit number by a stated multiple of p |
| `P256.AddTerms` | stm32l431/crypto/ecc.c:501-614 | the pair l_carry * 2^256 + result holds t + 2 s1 + 2 s2 + s3 + s4 after the shifts and additions |
| `P256.SubtractTerms` | stm32l431/crypto/ecc.c:616-730 | the pair, which may go negative, loses d1 + d2 + d3 + d4 |
| `P256.ReducePair` | stm32l431/crypto/ecc.c:732-745 | adding or subtracting p ends, with the result in [0, p) and congruent to the pair |
| `P256.MmodFast` | stm32l431/crypto/ecc.c:496-746 | product mod p for every 512-bit product |
| `P256.ModMultFast` | stm32l431/crypto/ecc.c:814-819 | left * right mod p for all 256-bit operands, also unreduced ones |
| `P256.ModSquareFast` | stm32l431/crypto/ecc.c:852-857 | left^2 mod p for every 256-bit operand |
| `VliInverse.CofactorsHalve` | stm32l431/crypto/ecc.c:884-909 | the branch for an even a (or b) keeps u * input = a, v * input = b modulo m and the common divisors |
| `VliInverse.CofactorsSubtract` | stm32l431/crypto/ecc.c:910-947 | so does the branch that replaces the larger one by half the difference |
| `VliInverse.RoundKeeps` | stm32l431/crypto/ecc.c:884-947 | every round keeps the cofactor invariant and makes a + b smaller |
| `VliInverse.Iterate` | stm32l431/crypto/ecc.c:881-948 | the four in-place branches compute that round, although the top carry is dropped and put back |
| `VliInverse.ZeroLoops` | stm32l431/crypto/ecc.c:870-951 | for input 0 no number of rounds ends the loop: a stays 0 and b the modulus |
| `VliInverse.ModInv` | stm32l431/crypto/ecc.c:870-951 | for an odd modulus above 1 and every nonzero input the loop ends with result * input congruent to gcd(input, modulus): an inverse exactly when the two are coprime |
| `VliInverse.ModInvEnds` | stm32l431/crypto/ecc.c:870-951 | seen as a call that may not come back, it ends exactly for an input other than 0 |
| `VliModMult.ShiftModulus` | stm32l431/crypto/ecc.c:1250-1261 | the multiple is the modulus shifted to the length of the product |
| `VliModMult.SubtractIfLess` | stm32l431/crypto/ecc.c:1268-1276 | the two-half comparison and subtraction: the multiple is taken off exactly when it is not larger |
| `VliModMult.ReduceLoop` | stm32l431/crypto/ecc.c:1263-1283 | with the product below twice the multiple at every step, the loop ends with the product reduced and its residue unchanged |
| `VliModMult.ModMult` | stm32l431/crypto/ecc.c:1221-1285 | left * right mod m for all 256-bit operands and every m with its top bit set |
| `CoZ.DoubleIs` | stm32l431/crypto/ecc.c:966-1010 | the doubling formulas give the tangent-rule double under the new Z = Y1 * Z1 |
| `CoZ.CoZAddIs` | stm32l431/crypto/ecc.c:1048-1069 | XYcZ_add gives P and P + Q (chord rule) under the common new Z * (X2 - X1) |
| `CoZ.CoZAddCIs` | stm32l431/crypto/ecc.c:1075-1106 | XYcZ_addC gives P - Q and P + Q (chord rule) under the common new Z * (X2 - X1) |
| `CoZ.ApplyZIs` | stm32l431/crypto/ecc.c:1013-1021 | apply_z takes an affine point to any coordinate Z |
| `CoZ.ApplyInverse` | stm32l431/crypto/ecc.c:1013-1021 | apply_z with an inverse of Z takes a represented point back to its affine form |
| `Points.DoubleJacobian` | stm32l431/crypto/ecc.c:966-1010 | the in-place routine computes those formulas on three arrays, and leaves infinity (Z = 0) alone |
| `Points.ApplyZInPlace` | stm32l431/crypto/ecc.c:1013-1021 | the in-place routine multiplies by Z^2 and Z^3 |
| `Points.XYcZAdd` | stm32l431/crypto/ecc.c:1048-1069 | the in-place routine computes the formulas of XYcZ_add on four arrays |
| `Points.XYcZAddC` | stm32l431/crypto/ecc.c:1075-1106 | the in-place routine computes the formulas of XYcZ_addC on four arrays |
| `Curves.AddOnCurve` | stm32l431/crypto/ecc.c:961-1106 | chord and tangent sums of curve points lie on the curve |
| `Curves.AddCommutes` | stm32l431/crypto/ecc.c:1044-1106 | addition of curve points commutes |
| `Scalar.DoublePoints` | stm32l431/crypto/ecc.c:966-1010 | the doubling represents P + P, again with a nonzero Z, for a point with y other than 0 |
| `Scalar.CoZAddPoints` | stm32l431/crypto/ecc.c:1048-1069 | XYcZ_add represents P and P + Q for curve points with different x |
| `Scalar.CoZAddCPoints` | stm32l431/crypto/ecc.c:1075-1106 | XYcZ_addC represents P - Q and P + Q for curve points with different x |
| `Scalar.TimesAdd` | stm32l431/crypto/ecc.c:1108-1147 | (i + j) P = i P + j P |
| `Scalar.TimesTimes` | stm32l431/crypto/ecc.c:1108-1147 | i (j P) = (i j) P |
| `Scalar.DistinctX` | stm32l431/crypto/ecc.c:1108-1147 | i P and (i + j) P have different x-coordinates when j P and (2i + j) P are not infinity: the additions of the ladder meet no zero difference |
| `LadderSteps.AfterAddC` | stm32l431/crypto/ecc.c:1122-1130 | after XYcZ_addC the registers represent the point or its opposite, and (2m + 1) P |
| `LadderSteps.AfterAdd` | stm32l431/crypto/ecc.c:1122-1127 | after XYcZ_add they represent (2m + 1) P and 2 (m + bit) P: m becomes 2m + bit |
| `LadderSteps.DenominatorIs` | stm32l431/crypto/ecc.c:1133-1136 | the number inverted is nonzero and is the coming Z times yP * Xb with the right sign, for both values of the last bit |
| `LadderSteps.FinalInverse` | stm32l431/crypto/ecc.c:1136-1139 | yP * Xb over that number is the true signed 1 / Z |
| `Rungs.RungStands` | stm32l431/crypto/ecc.c:1122-1127 | a round whose multiples 2m P, (2m + 1) P and (2m + 2) P are not infinity moves R0 = m P, R1 = (m + 1) P to 2m + bit |
| `Rungs.RungFalls` | stm32l431/crypto/ecc.c:1122-1127 | a round with one of them infinity leaves (0, 0) in one register and a point of y^2 = x^3 in the other: the coordinate is 0 |
| `Rungs.DeadRung` | stm32l431/crypto/ecc.c:1122-1127 | every later round keeps it 0 |
| `Rungs.ClimbIs` | stm32l431/crypto/ecc.c:1122-1127 | so the registers follow the leading bits of the scalar until a multiple is infinity, and have a zero coordinate from there on |
| `LadderEnds.InvertedIff` | stm32l431/crypto/ecc.c:1108-1147 | for every curve point, scalar of two bits and initial Z, the number EccPoint_mult inverts is nonzero exactly if Z is not 0 modulo p, x is not 0 and no multiple that the ladder touches is infinity |
| `LadderEnds.FiniteIff` | stm32l431/crypto/ecc.c:1108-1147 | for a point of odd order n and scalars below 2n - 2, a multiple is infinity exactly for n - 1 and n |
| `LadderEnds.InvertedOfOrder` | stm32l431/crypto/ecc.c:1108-1147 | hence the exact condition on the inputs: Z not 0 modulo p, x not 0, scalar neither n - 1 nor n |
| `LadderEnds.LastScalarFails` | stm32l431/crypto/ecc.c:1129-1136 | the scalar n - 1 makes the ladder invert 0, for every point of odd order n and every initial Z |
| `LadderEnds.ZeroXFails` | stm32l431/crypto/ecc.c:1129-1136 | so does every point with x = 0, for every scalar |
| `Ladder.ZeroXPoint` | stm32l431/crypto/ecc.c:1169-1214 | such a point is on the curve, so ecc_valid_public_key accepts it and ecdh_shared_secret inverts 0 |
| `LadderEnds.ZeroCoordinateClears` | stm32l431/crypto/ecc.c:1024-1042 | an initial Z that is 0 modulo p makes all four registers 0, after every round |
| `LadderEnds.ResultIs` | stm32l431/crypto/ecc.c:1108-1147 | if the number is nonzero, the last addition scaled back by its inverse is scalar * P |
| `Ladder.InitialDouble` | stm32l431/crypto/ecc.c:1024-1042 | the arrays hold the point and its double under one coordinate, for every initial Z |
| `Ladder.FirstIndexIff` | stm32l431/crypto/ecc.c:1122 | the loop begins at a bit of the scalar exactly for scalars from 2 on; for 0 and 1 it would read past the array |
| `Ladder.LadderLoop` | stm32l431/crypto/ecc.c:1122-1127 | the arrays follow the ladder function for the leading bits of the scalar at every round |
| `Ladder.FinalZ` | stm32l431/crypto/ecc.c:1133-1139 | the single inversion ends exactly if the number is not 0, and is multiplied by yP * Xb |
| `Ladder.EccPointMult` | stm32l431/crypto/ecc.c:1108-1147 | for every scalar from 2 on, any point and any Z it ends exactly if the number inverted is not 0, and then, for every point of the curve, the result is scalar * P in affine form |
| `Joint.BasePointOnCurve` | stm32l431/crypto/ecc.c:75-81 | the base point satisfies the curve equation |
| `Joint.SmallMultiples` | stm32l431/crypto/ecc.c:966-1067 | 2 G and 3 G, by the tangent and the chord, are the published points |
| `Joint.JointStep` | stm32l431/crypto/ecc.c:1379-1394 | doubling (u1>>(i+1)) G + (u2>>(i+1)) Q and adding the selected table entry gives (u1>>i) G + (u2>>i) Q |
| `Orders.InfinityIff` | stm32l431/crypto/ecc.c:1287-1324 | a multiple of a point of order n is infinity exactly if n divides the factor |
| `Orders.SameXIff` | stm32l431/crypto/ecc.c:1287-1407 | two multiples share an x-coordinate exactly if their factors are equal or opposite modulo the order |
| `Joint.LadderIff` | stm32l431/crypto/ecc.c:1108-1147 | for points of the order of G and all 256-bit scalars from 2 on, the ladder ends exactly if Z and x are not 0 and the scalar is neither n - 1 nor n |
| `Joint.NonceRecovered` | stm32l431/crypto/ecc.c:1287-1324 | u1 + u2 d is congruent to the nonce for the factors of a signature |
| `Joint.SignedIsAccepted` | stm32l431/crypto/ecc.c:1287-1407 | every signature with s other than 0 meets the acceptance condition of section 6.4 of FIPS 186-4 for Q = d G and the same hash, also a hash that is not below the order |
| `Joint.AcceptedIsSigned` | stm32l431/crypto/ecc.c:1326-1407 | nothing else is accepted: for every accepted (r, s) a nonce between 0 and n is found that makes this signature of the hash under the key |
| `Joint.AcceptsIff` | stm32l431/crypto/ecc.c:1326-1407 | (r, s) is accepted for d G exactly if 0 < r < n, 0 < s < n and some nonce k has r = x(k G) mod n and s k congruent to hash + r d |
| `Ecdsa.TablesAre` | stm32l431/crypto/ecc.c:108-111 | the byte tables are the field prime, the order and the base point |
| `Ecdsa.Tables.constructor` | stm32l431/crypto/ecc.c:108-111 | the tables in memory hold those numbers |
| `Ecdsa.ReduceN` | stm32l431/crypto/ecc.c:1298-1302 | one conditional subtraction reduces any 256-bit number modulo the order |
| `Ecdsa.SignScalar` | stm32l431/crypto/ecc.c:1318-1321 | s k is congruent to hash + r d modulo the order |
| `Ecdsa.Sign` | stm32l431/crypto/ecc.c:1287-1324 | ends unless the random number reduces to n - 1; returns 0 exactly when the random number or r = x(k G) mod n is 0, and otherwise a signature of the hash under the nonce, with s = 0 exactly if n divides hash + r d |
| `JointRounds.RoundAdds` | stm32l431/crypto/ecc.c:1381-1393 | a round of Shamir's trick in general position doubles the point and adds the table entry |
| `JointRounds.RoundFalls` | stm32l431/crypto/ecc.c:1381-1393 | in any other position it makes z 0 |
| `JointRounds.RoundFollows` | stm32l431/crypto/ecc.c:1379-1394 | z is 0 from the first such round on, and until then the registers hold (u1>>i) G + (u2>>i) Q |
| `Orders.AdditionClearIff` | stm32l431/crypto/ecc.c:1381-1393 | doubling t G and adding s G is in general position exactly if n divides neither t nor, for an s it does not divide, 2t - s or 2t + s |
| `JointFactors.ShamirClearIff` | stm32l431/crypto/ecc.c:1326-1407 | for the key d G, all rounds are in general position exactly if d is not 1 or n - 1 and u1, u2 and d meet that condition in every round |
| `JointFactors.VerifyLoops` | stm32l431/crypto/ecc.c:1326-1407 | a hash and a signature for d = 2 and nonce 4, accepted by section 6.4 of FIPS 186-4, with factors 2 and 1 that are not in general position |
| `Ecdsa.ShamirStep` | stm32l431/crypto/ecc.c:1381-1393 | the in-place round computes the round function, also on a zero coordinate |
| `Ecdsa.ShamirLoop` | stm32l431/crypto/ecc.c:1379-1394 | the registers follow the joint multiple, or have z = 0, at every round |
| `Ecdsa.SumPoint` | stm32l431/crypto/ecc.c:1358-1366 | G + Q in affine form; its inversion ends exactly if Q and G differ in x |
| `Ecdsa.Factors` | stm32l431/crypto/ecc.c:1353-1356 | u1 = hash / s and u2 = r / s modulo the order |
| `Ecdsa.Verify` | stm32l431/crypto/ecc.c:1326-1407 | for every key on the curve it ends exactly if r or s is out of range or the rounds are in general position, and then accepts exactly if 0 < r < n, 0 < s < n, and (hash / s) G + (r / s) Q is not infinity and has x mod n = r |
| `JointFactors.ZeroIff` | stm32l431/crypto/ecc.c:1318-1321 | for a signature under a nonce, s is 0 exactly if n divides hash + r d |
| `JointFactors.ZeroSigned` | stm32l431/crypto/ecc.c:1318-1321 | a hash for which key 2 and nonce 4 give s = 0 |
| `JointFactors.FactorsOfSigned` | stm32l431/crypto/ecc.c:1353-1356 | the points u1 G and u2 Q of a signature in terms of hash, key and nonce |
| `Ecdsa.SignThenVerify` | stm32l431/crypto/ecc.c:1287-1407 | in terms of hash, key and nonce: verification of what signing returns ends exactly if n divides hash + r d or u1, u2 and d are in general position, and then it accepts exactly if n does not divide hash + r d |
| `Ecdh.MakeKey` | stm32l431/crypto/ecc.c:1149-1167 | the private key is the random number modulo the order, the public key its multiple of G; fails exactly for 0, and does not end exactly for n - 1 |
| `Ecdh.ValidPublicKey` | stm32l431/crypto/ecc.c:1169-1199 | 1 exactly for the affine points of the curve |
| `Ecdh.SharedSecret` | stm32l431/crypto/ecc.c:1201-1214 | ends exactly if its ladder does, and then for every public key on the curve the secret is x(d Q), whatever the blinding coordinate; the failure branch is never taken |
| `Ecdh.OrderOfMultiple` | stm32l431/crypto/ecc.c:1149-1167 | a public key has the order of the base point |
| `Ecdh.SecretsAgree` | stm32l431/crypto/ecc.c:1149-1214 | both parties of the exchange compute the same affine point, and each ladder ends exactly if the peer's x is not 0 |
| `Bignum.Len` | blockchain/crypt_bignum.cpp:3-13 | the length without leading zeros, at least 1, with the value unchanged |
| `Bignum.TrimmedUnique` | blockchain/crypt_bignum.cpp:3-13 | equal trimmed numbers have equal digits |
| `Bignum.Cmp` | blockchain/crypt_bignum.cpp:15-34 | the sign of the difference, for any lengths and leading zeros |
| `Bignum.CmpByte` | blockchain/crypt_bignum.cpp:36-47 | the sign of the difference with one digit |
| `Bignum.Add` | blockchain/crypt_bignum.cpp:53-98 | the trimmed sum for operands of any lengths, in place or not, in a buffer that holds it: no room is needed for a carry that does not occur |
| `Bignum.AddByte` | blockchain/crypt_bignum.cpp:104-131 | the trimmed sum with one digit; in place, the digits above the carry stay as they are |
| `Bignum.Sub` | blockchain/crypt_bignum.cpp:171-214 | the trimmed difference and its borrow; for a < b it is b - a if a is the shorter one, and a - b + 256^length otherwise |
| `Bignum.SubByte` | blockchain/crypt_bignum.cpp:221-242 | the same for one digit |
| `BignumMul.AddAt` | blockchain/crypt_bignum.cpp:292-321 | a digit added inside a product buffer: the rippled carry stays inside length_a + length_b |
| `BignumMul.MulRow` | blockchain/crypt_bignum.cpp:292-321 | one row adds digit * a at its weight |
| `BignumMul.Mul` | blockchain/crypt_bignum.cpp:292-321 | the exact trimmed product for all lengths, in place or not |
| `BignumMul.MulByte` | blockchain/crypt_bignum.cpp:327-352 | the exact trimmed product with one digit |
| `BignumMod.GuessBelow` | blockchain/crypt_bignum.cpp:457-471 | the guessed byte is in 1..255 and guess * b * 256^shift never exceeds the running remainder |
| `BignumMod.EqualTops` | blockchain/crypt_bignum.cpp:468-488 | with equal top bytes and equal lengths at most one more subtraction is needed |
| `BignumMod.Reduce` | blockchain/crypt_bignum.cpp:451-473 | the loop ends with the remainder changed by a multiple of b, and either at most b or of b's length and top byte |
| `BignumMod.LastStep` | blockchain/crypt_bignum.cpp:475-488 | what is left, less b at most once, is a mod b |
| `BignumMod.Mod` | blockchain/crypt_bignum.cpp:435-498 | a mod b for all a and all b > 0 of any lengths; a divisor of 0 is refused with length 0 |
| `BignumExp.Gcd` | blockchain/crypt_bignum.cpp:504-545 | the greatest common divisor, whose divisors are exactly the common divisors, in any buffer that holds it |
| `BignumExp.GcdRoom` | blockchain/crypt_bignum.cpp:500-545 | the documented room, the shorter operand, is enough exactly if no operand is 0 with the other one longer |
| `BignumExp.GcdRoomFails` | blockchain/crypt_bignum.cpp:500-545 | gcd(256, 0) takes two bytes, one more than documented |
| `BignumExp.ModSub` | blockchain/crypt_bignum.cpp:570-592 | (a - b) mod p for all a and b, reduced or not; if the result is the buffer of p, what the clobbered modulus gives, for a negative difference longer than p one of two values |
| `BignumExp.SharedDifferenceIff` | blockchain/crypt_bignum.cpp:570-592 | for reduced operands in the buffer of p it is right exactly if a = b, or a > b and a has fewer digits than p, or a < b, b has fewer digits and b - a equals the low digits of p |
| `BignumExp.SharedDifferenceFails` | blockchain/crypt_bignum.cpp:570-592 | (5 - 2) mod 7 and (2 - 5) mod 7 come out as 0 |
| `BignumExp.ModMul` | blockchain/crypt_bignum.cpp:599-610 | a * b mod p for all a and b; if the result is the buffer of p, the product modulo what is left of p |
| `BignumExp.SharedProductIff` | blockchain/crypt_bignum.cpp:599-610 | in the buffer of p it is right if the operands together have fewer digits than p; for a product as long as p exactly if p divides it; for a longer one exactly if its low digits are 0 and p divides it, or they exceed v mod p and divide v less v mod p |
| `BignumExp.SharedProductFails` | blockchain/crypt_bignum.cpp:599-610 | 2 * 2 mod 7 comes out as 0 |
| `BignumExp.PowerLoop` | blockchain/crypt_bignum.cpp:633-644 | the value is a to the leading bits of b at every round |
| `BignumExp.ModExp` | blockchain/crypt_bignum.cpp:617-651 | a^b mod p for b > 0, and a mod p for b = 0; 0 for a modulus of 0, and 0 in the buffer of p for b > 1 |
| `BignumExp.SharedPowerIff` | blockchain/crypt_bignum.cpp:617-651 | in the buffer of p it is right exactly if b = 1, or b = 0 and a is congruent to 1, or p divides a^b |
| `BignumExp.SharedPowerFails` | blockchain/crypt_bignum.cpp:617-651 | 2^2 mod 7 is not 0 |
| `BignumExp.ModExpExact` | blockchain/crypt_bignum.cpp:617-651 | the result is a^b mod p exactly when b > 0 or a is congruent to 1 |
| `BignumExp.ZeroExponentFails` | blockchain/crypt_bignum.cpp:617-651 | 2^0 mod 3 comes out as 2 |
| `BignumExp.BitLen` | blockchain/crypt_bignum.cpp:823-840 | the number of bits, and 1 for 0 |
| `Fermat.BinomialTheorem` | blockchain/crypt_rsa.cpp:165-245 | (1 + a)^n is the sum of the binomial terms |
| `Fermat.Little` | blockchain/crypt_rsa.cpp:165-245 | a^p is congruent to a modulo a prime p |
| `Fermat.ExponentCong` | blockchain/crypt_rsa.cpp:165-245 | positive exponents that agree modulo p - 1 give the same power modulo p |
| `Rsa.SamePower` | blockchain/crypt_rsa.cpp:165-245 | exponents that agree modulo p - 1 and q - 1 give the same power modulo p q, whatever the base |
| `Rsa.RoundTrip` | blockchain/crypt_rsa.cpp:165-245 | decryption undoes encryption for every message below p q |
| `Rsa.Blinding` | blockchain/crypt_rsa.cpp:198-214 | adding a multiple of (p - 1)(q - 1) to the exponent does not change the result |
| `Rsa.GarnerIs` | blockchain/crypt_rsa.cpp:225-235 | m2 + ((m1 - m2) qp mod p) q is below p q and has the remainders m1 and m2 |
| `Rsa.GarnerUnique` | blockchain/crypt_rsa.cpp:225-235 | it is the only such number |
| `Rsa.ShareIff` | blockchain/crypt_rsa.cpp:220-230 | a share is c^d modulo its prime exactly if its exponent is positive or c is 0 or 1 modulo the prime |
| `Rsa.CrtIff` | blockchain/crypt_rsa.cpp:220-240 | the recombined shares equal c^d mod p q, as in section 5.1.2 of RFC 8017, exactly if both shares are right |
| `Rsa.RsaKey.Encrypt` | blockchain/crypt_rsa.cpp:165-169 | content^e mod n, for a key that has only e and n |
| `Rsa.RsaKey.Mask` | blockchain/crypt_rsa.cpp:203-208 | the product of rand with what the buffers of p - 1 and q - 1 hold, unwritten digits included |
| `Rsa.StaleDigits` | blockchain/crypt_bignum.cpp:221-242 | the buffer of p - 1 can hold nothing but p - 1 exactly if the top byte of p is not 0 (or p has one byte) |
| `Rsa.RsaKey.Blind` | blockchain/crypt_rsa.cpp:198-210 | the stored exponent grows, in place, by that product |
| `Rsa.RsaKey.DecryptStandard` | blockchain/crypt_rsa.cpp:196-219 | content^d' mod n for the blinded exponent d', which is content^d mod n for the exponent before blinding if the primes fill their bytes |
| `Rsa.StoredExponent` | blockchain/crypt_rsa.cpp:196-219 | a later call, which reads the first len bytes of the stored exponent, reads all of it exactly if it is below 256^len |
| `Rsa.SecondCallFails` | blockchain/crypt_rsa.cpp:196-219 | p = 17, q = 19, d = 5 and the random number 255: the second call decrypts 2 wrongly |
| `Rsa.RsaKey.Recombine` | blockchain/crypt_rsa.cpp:231-235 | the bignum calls compute Garner's formula in a buffer of len bytes, without a carry out of it |
| `Rsa.RsaKey.DecryptCrt` | blockchain/crypt_rsa.cpp:220-240 | at most len bytes, and content^d mod n, the same value as the standard branch, exactly if dp and dq are positive or the content is 0 or 1 modulo the prime of the one that is not |
| `KeccakWords.RolBit` | stm32l431/crypto/KeccakF-1600-reference.c:22-36 | rotating the two 32-bit halves rotates the 64-bit lane, for every distance |
| `KeccakWords.ThetaIs` | stm32l431/crypto/KeccakF-1600-reference.c:38-62 | theta on word pairs is theta of section 3.2 of FIPS 202 on bits |
| `KeccakWords.RhoIs` | stm32l431/crypto/KeccakF-1600-reference.c:64-76 | likewise rho |
| `KeccakWords.PiIs` | stm32l431/crypto/KeccakF-1600-reference.c:78-91 | likewise pi |
| `KeccakWords.ChiIs` | stm32l431/crypto/KeccakF-1600-reference.c:93-107 | likewise chi |
| `KeccakWords.IotaIs` | stm32l431/crypto/KeccakF-1600-reference.c:109-113 | likewise iota, for the constants of algorithm 5 |
| `Keccak.Rol` | stm32l431/crypto/KeccakF-1600-reference.c:22-36 | the loop over the two halves stores the rotated lane |
| `Keccak.ThetaStep` | stm32l431/crypto/KeccakF-1600-reference.c:38-62 | the in-place loops of theta leave exactly the words of theta |
| `Keccak.RhoStep` | stm32l431/crypto/KeccakF-1600-reference.c:64-76 | the in-place loops of rho |
| `Keccak.PiStep` | stm32l431/crypto/KeccakF-1600-reference.c:78-91 | the loops of pi through the copy |
| `Keccak.ChiStep` | stm32l431/crypto/KeccakF-1600-reference.c:93-107 | the in-place rows of chi |
| `Keccak.IotaStep` | stm32l431/crypto/KeccakF-1600-reference.c:109-113 | the two words of lane 0 take the round constant |
| `KeccakTables.Lfsr` | stm32l431/crypto/KeccakF-1600-reference.c:115-125 | the byte follows the register of algorithm 5 of FIPS 202, bit for bit |
| `KeccakTables.RoundConstants` | stm32l431/crypto/KeccakF-1600-reference.c:127-148 | the table holds the 24 constants that algorithm 5 defines |
| `KeccakTables.RhoOffsets` | stm32l431/crypto/KeccakF-1600-reference.c:150-165 | the walk visits every lane but the first once and leaves the offsets of algorithm 2 |
| `KeccakTables.VisitOffset` | stm32l431/crypto/KeccakF-1600-reference.c:150-165 | the lane visited at time t has the offset (t + 1)(t + 2) / 2 |
| `KeccakTables.VisitStep` | stm32l431/crypto/KeccakF-1600-reference.c:150-165 | after (x, y) the walk visits (y, 2 x + 3 y) |
| `KeccakRounds.AllConstants` | stm32l431/crypto/KeccakF-1600-reference.c:127-148 | the register of algorithm 5 puts out the 24 published 64-bit round constants |
| `KeccakRounds.KeccakIs` | stm32l431/crypto/KeccakF-1600-reference.c:190-202 | Keccak-f takes any state through 24 rounds, each theta, rho, pi, chi and iota by its equation for every bit, with the published constants |
| `KeccakTables.PermuteWords` | stm32l431/crypto/KeccakF-1600-reference.c:190-202 | 24 rounds are Keccak-f[1600], whose rounds `KeccakRounds.KeccakIs` writes out |
| `KeccakTables.CastBits` | stm32l431/crypto/KeccakF-1600-reference.c:204-218 | little-endian words have the bits of the byte buffer |
| `KeccakTables.Permute` | stm32l431/crypto/KeccakF-1600-reference.c:204-218 | the byte buffer goes through Keccak-f[1600] |
| `SpongeSpec.AbsorbAppend` | stm32l431/crypto/crypt_sha3.c:122-230 | absorbing whole blocks may be interrupted anywhere |
| `SpongeSpec.StreamBit` | stm32l431/crypto/crypt_sha3.c:263-300 | output bit k is bit k mod r of the state after k / r more permutations |
| `SpongeSpec.StreamPrefix` | stm32l431/crypto/crypt_sha3.c:263-300 | a longer output extends a shorter one |
| `SpongeSpec.ShortestPad` | stm32l431/crypto/crypt_sha3.c:235-247 | the padding is a 1, the fewest zeros that complete a block with the last 1, and a 1 |
| `SpongeSpec.SpongeIs` | stm32l431/crypto/crypt_sha3.c:45-63 | the output block by block: from the zero state each block of the padded message is added to the first r bits and the state permuted, and output bit k is bit k mod r of the state after k / r more permutations |
| `Sponge.PermuteAfterXor` | stm32l431/crypto/KeccakF-1600-reference.c:220-227 | the state XOR the block, permuted |
| `Sponge.Sha3Ctx.Init` | stm32l431/crypto/crypt_sha3.c:18-41 | an empty message at the rate of the digest length; for other lengths only the length is stored |
| `Sponge.Sha3Ctx.InitSponge` | stm32l431/crypto/crypt_sha3.c:66-83 | an empty message at the rate; 1, with nothing changed, exactly if rate and capacity do not add up to 1600 in 32 bits or the rate is 0, at least 1600 or no multiple of 64 |
| `Sponge.Sha3Ctx.AbsorbQueue` | stm32l431/crypto/crypt_sha3.c:85-120 | a full queue is absorbed as one block |
| `Sponge.Sha3Ctx.AbsorbWholeBlocks` | stm32l431/crypto/crypt_sha3.c:135-206 | the fast path absorbs as many whole blocks as fit, straight from the data |
| `Sponge.Sha3Ctx.AbsorbPartial` | stm32l431/crypto/crypt_sha3.c:207-226 | the queue path takes whole bytes up to a full queue, then the last partial byte |
| `Sponge.Sha3Ctx.Absorb` | stm32l431/crypto/crypt_sha3.c:122-230 | the message grows by the data; refused, with nothing changed, exactly after a partial byte or once squeezing |
| `Sponge.PadIs` | stm32l431/crypto/crypt_sha3.c:235-247 | both ways of filling the queue give pad10*1 of section 5.1 of FIPS 202 |
| `Sponge.Sha3Ctx.PadAndSwitchToSqueezingPhase` | stm32l431/crypto/crypt_sha3.c:232-261 | the buffer is the state that the one-shot sponge leaves for the message |
| `Sponge.Sha3Ctx.NextBlock` | stm32l431/crypto/crypt_sha3.c:275-290 | an exhausted block is replaced by the next one |
| `Sponge.Sha3Ctx.Squeeze` | stm32l431/crypto/crypt_sha3.c:263-300 | the next bits of the output of the message; refused for lengths that are not whole bytes |
| `Sponge.SplitSqueeze` | stm32l431/crypto/crypt_sha3.c:263-300 | two reads of the output give what one read gives |
| `Sponge.Sha3Ctx.Update` | stm32l431/crypto/crypt_sha3.c:45-58 | the message grows by whole bytes and then the high bits of the last byte |
| `Sponge.UpdateBitsAre` | stm32l431/crypto/crypt_sha3.c:45-58 | bit k absorbed is bit k mod 8 of byte k / 8, and in a last partial byte of n bits bit 8 - n + k mod 8 |
| `Sponge.SplitUpdate` | stm32l431/crypto/crypt_sha3.c:45-58 | two updates cut at a byte absorb what one absorbs |
| `Sponge.Sha3Ctx.Final` | stm32l431/crypto/crypt_sha3.c:60-63 | the digest is SPONGE[Keccak-f, pad10*1, r] of the message; a context that is squeezing gives its next bits, and nothing is written for a length that is not whole bytes |
| `Sponge.HashPieces` | stm32l431/crypto/crypt_sha3.c:18-63 | for every list of byte pieces and a last piece of any bit length, the digest is that of the whole message |
| `Buffers.TogetherAre` | stm32l431/crypto/crypt_sha3.c:45-58 | each piece has its place in the whole message, one after the other |
| `Sha256Rounds.SigmasAre` | stm32l431/crypto/crypt_sha256.h:8-11 | the four macros, written with left rotations, are the functions of section 4.1.2 of FIPS 180-4 |
| `Sha256Spec.ChBit` | stm32l431/crypto/crypt_sha256.h:13-14 | bit k of Ch(x, y, z) is that of y where x has a 1, and that of z elsewhere |
| `Sha256Spec.MajBit` | stm32l431/crypto/crypt_sha256.h:13-14 | bit k of Maj(x, y, z) is the majority of the three |
| `Sha256Roots.PrimesAre` | stm32l431/crypto/crypt_sha256.c:9-28 | the 64 primes of the table are the first ones: 2, and each the prime that follows the one before |
| `Sha256Roots.ConstantsAre` | stm32l431/crypto/crypt_sha256.c:9-28 | the constant of round t is the first 32 bits of the fraction of the cube root of the t-th prime |
| `Sha256Roots.StartIs` | stm32l431/crypto/crypt_sha256.c:73-80 | the initial chaining value holds the first 32 bits of the fractions of the square roots of the first 8 primes |
| `Sha256Rounds.Round` | stm32l431/crypto/crypt_sha256.h:16 | the round on rotated register names is one step of section 6.2.2 |
| `Sha256Rounds.MixedRound` | stm32l431/crypto/crypt_sha256.h:17 | the in-place schedule update followed by the round |
| `Sha256Rounds.WindowStep` | stm32l431/crypto/crypt_sha256.h:17 | the circular 16-word window holds the last 16 words of the 64-word schedule |
| `Sha256Rounds.EightRounds` | stm32l431/crypto/crypt_sha256.c:37-52 | after eight rounds the register names are back in place |
| `Sha256Rounds.EightMixedRounds` | stm32l431/crypto/crypt_sha256.c:53-63 | likewise with the schedule in place |
| `Sha256.AllRounds` | stm32l431/crypto/crypt_sha256.c:37-63 | all 64 rounds of the schedule of section 6.2.2 |
| `Sha256.Transform` | stm32l431/crypto/crypt_sha256.c:6-66 | the state becomes the compression of state and block |
| `Sha256Spec.BlocksAppend` | stm32l431/crypto/crypt_sha256.c:84-125 | chaining over whole blocks may be interrupted anywhere |
| `Sha256Spec.PadIs` | stm32l431/crypto/crypt_sha256.c:131-140 | the padding is the shortest that completes a block with 0x80, zeros and 8 bytes |
| `Sha256Spec.PadLength` | stm32l431/crypto/crypt_sha256.c:141-146 | which are the length in bits, most significant byte first |
| `Sha256Answer.KnownAnswer` | stm32l431/crypto/crypt_sha256.c:6-153 | the digest of the 56-byte message of appendix B.2 of FIPS 180-2, two blocks, is the published one, by evaluation of all 128 rounds |
| `WordVectors.PlusValue` | stm32l431/crypto/crypt_sha256.c:6-66 | addition of 32-bit words is addition modulo 2^32, by its carries |
| `Sha256.CountStep` | stm32l431/crypto/crypt_sha256.c:89-93 | the two-word counter counts bits modulo 2^64, carry included |
| `Sha256.Sha256Ctx.Init` | stm32l431/crypto/crypt_sha256.c:69-82 | an empty message |
| `Sha256.Sha256Ctx.FillBuffer` | stm32l431/crypto/crypt_sha256.c:97-106 | data complete the buffered block, which is compressed |
| `Sha256.Sha256Ctx.AbsorbBlocks` | stm32l431/crypto/crypt_sha256.c:114-119 | whole blocks are compressed straight from the data |
| `Sha256.Sha256Ctx.Update` | stm32l431/crypto/crypt_sha256.c:84-125 | the message grows by the data, however they are cut |
| `Sha256.PaddedIs` | stm32l431/crypto/crypt_sha256.c:131-140 | both ways of padding give 0x80 and the zeros of section 5.1.1 |
| `Sha256.Sha256Ctx.Final` | stm32l431/crypto/crypt_sha256.c:127-153 | the digest is the hash of the whole message below 2^64 bits |
| `Sha256.HashPieces` | stm32l431/crypto/crypt_sha256.c:69-153 | for every list of pieces below 2^64 bits in all, the digest is the hash of their concatenation |
| `Layer.DagNum` | blockchain/layer.cpp:202-217 | marks exactly what is reachable through unmarked nodes and counts the new marks; ends because unmarked nodes get fewer |
| `Layer.ReachIs` | blockchain/layer.cpp:202-229 | on an unmarked graph the marks are the nodes reachable by trunk and branch |
| `Layer.ReachSteps` | blockchain/layer.cpp:202-229 | reachable means led to by some number of trunk and branch links |
| `Layer.TipNum` | blockchain/layer.cpp:184-199 | the number of listed tips without a flag |
| `Layer.DagTotal` | blockchain/layer.cpp:220-229 | the size of the union of the reachable nodes and the listed tips |
| `Layer.DagPoint` | blockchain/layer.cpp:246-261 | stores each newly marked node once, within the array |
| `Layer.TipPoint` | blockchain/layer.cpp:232-243 | stores each listed tip that is not marked once |
| `Layer.DagPoints` | blockchain/layer.cpp:264-273 | stores every node of that union once, in exactly that many slots |
| `Layer.DagUnmark` | blockchain/layer.cpp:160-174 | unmarks exactly what is reachable through marked nodes; ends because marked nodes get fewer |
| `Layer.TipClear` | blockchain/layer.cpp:146-157 | unmarks the listed tips |
| `Layer.Unmarked` | blockchain/layer.cpp:160-181 | unmarking from the head clears every mark that counting set |
| `Layer.DagClear` | blockchain/layer.cpp:177-181 | after counting or collecting, no flag is left |
| `Layer.Collect` | blockchain/layer.cpp:298-309 | count, clear, collect: an array of exactly the nodes of the union, each once |
| `Mainchain.InsertsKeepOrder` | blockchain/layer.cpp:86-110 | in every queue built by queue_insert the connect messages come first |
| `Mainchain.Chain.Insert` | blockchain/layer.cpp:86-110 | connect messages go to the front, all others to the end |
| `Groups.RenumberedIs` | blockchain/layer_mainchain.cpp:52-76 | renumbering keeps the partition and makes the group numbers 1 to n |
| `Groups.RegroupedIs` | blockchain/layer_mainchain.cpp:41-76 | a reported neighbourhood becomes one fresh group, and the partition of the other devices does not change |
| `Mainchain.UpdateList` | blockchain/layer_mainchain.cpp:41-51 | every reported device gets the fresh number, the reported key and the reported kind of node; no other entry changes |
| `Mainchain.PlacesAre` | blockchain/layer_mainchain.cpp:41-51 | the entries it regroups are the first ones of the devices named in the report |
| `Mainchain.ReportedIs` | blockchain/layer_mainchain.cpp:41-51 | the key and kind of node an entry ends with are those of the last row of the report for it |
| `Mainchain.HandledIs` | blockchain/layer_mainchain.cpp:13-123 | the reports handled are those of the first connect message of each reporter, in queue order, and every reporter is among them |
| `Mainchain.ConnectAllIs` | blockchain/layer_mainchain.cpp:13-123 | each of them regroups the list and updates keys and kinds of node that the one before left |
| `Mainchain.CollectIds` | blockchain/layer_mainchain.cpp:52-66 | the numbers in use, in the order they occur |
| `Mainchain.ModifyIndexes` | blockchain/layer_mainchain.cpp:67-76 | every number becomes its place among them, and nothing else changes |
| `Mainchain.Remove` | blockchain/layer_mainchain.cpp:79-113 | from the first message of a reporter on, a message is kept exactly if it is no connect message or its first device differs, in the old order; prev is set before it is used exactly if the first of them is the head of the queue |
| `Mainchain.Chain.HandleConnect` | blockchain/layer_mainchain.cpp:25-113 | one report regroups the list, stores the reported keys and kinds of node, and exactly the connect messages of its reporter leave the queue |
| `Mainchain.Chain.ConnectRecv` | blockchain/layer_mainchain.cpp:13-123 | with the connect messages first, the first report of every reporter regroups the list and updates its keys and kinds of node in turn; group numbers stay exactly 1 to dag_number, accounts stay as they are, no message is unlinked through an unset prev, and the loop ends with exactly the other messages, in order, and a wake-up message |
| `Accounts.Settle` | blockchain/layer_mainchain.cpp:353-366 | the loop moves the deal's tokens at every matching entry, modulo 2^32 |
| `Accounts.TotalKept` | blockchain/layer_mainchain.cpp:353-366 | the sum of tokens modulo 2^32 is kept exactly when the surplus of receiving entries moves a multiple of 2^32 |
| `Accounts.Conserved` | blockchain/layer_mainchain.cpp:353-366 | so it is kept for a deal between listed devices |
| `Accounts.UnlistedSenderMakesTokens` | blockchain/layer_mainchain.cpp:353-366 | an unlisted sender and a listed receiver make tokens |
| `Accounts.AllConserved` | blockchain/layer_mainchain.cpp:349-417 | no run of such deals changes the sum or the devices |
| `Balances.ExactIff` | blockchain/layer_mainchain.cpp:353-366 | with fewer than 2^32 tokens in all, a deal moves its tokens without wrap-around exactly if its sender covers it or is its receiver |
| `Balances.AllExactTotal` | blockchain/layer_mainchain.cpp:349-417 | over a run of such deals the sum of all tokens is the same number |
| `Balances.AllExactIff` | blockchain/layer_mainchain.cpp:349-417 | a run of deals moves all its tokens without wrap-around exactly if every deal is covered when its turn comes |
| `Balances.PairExactIff` | blockchain/layer_mainchain.cpp:349-417 | two deals in turn do so exactly if the sender of the first covers it and the sender of the second still covers it after the first |
| `Balances.SpentTwice` | blockchain/layer_mainchain.cpp:349-417 | two deals of 5 tokens, each covered by a balance of 5, leave their sender with 2^32 - 5 |
| `Balances.CheckRightIff` | blockchain/layer_mainchain.cpp:146-152 | for every amount the balance check is a comparison with the sender exactly if the entry it reads has as many tokens as the sender |
| `Balances.WrongEntry` | blockchain/layer_mainchain.cpp:146-152 | a sender without tokens passes for 5, with any of the lengths 1 to 4, and ends with 2^32 - 5; a sender with 9 is refused 5 with the length 0 |
| `Ledger.Acyclic` | blockchain/layer_mainchain.cpp:337-348 | when links lead to earlier nodes, no node can be reached from its own links |
| `Ledger.OnceReused` | blockchain/layer_mainchain.cpp:267-282 | overwriting a rejected tip keeps the rule that every queued transaction moves its tokens at most once |
| `Ledger.OnceAdded` | blockchain/layer_mainchain.cpp:337-348 | so does a new tip |
| `Ledger.OnceMoved` | blockchain/layer_mainchain.cpp:349-417 | so does moving a tip's tokens |
| `Ledger.TransactionSeek` | blockchain/layer_mainchain.cpp:157-200 | two different correct tips, the only one twice, or none, for any random choice |
| `Ledger.FindHeavy` | blockchain/layer_mainchain.cpp:229-249 | the index of the heavy node, the device itself or the first of its group in the list, and failure exactly when there is none |
| `Ledger.Reuse` | blockchain/layer_mainchain.cpp:267-282 | a rejected tip takes over the queued transaction and its flag goes |
| `Ledger.TransactionVerify` | blockchain/layer_mainchain.cpp:126-155 | the balance check compares the deal with the entry at the length that rsa_enc returned, which has overwritten the place of the sender |
| `Ledger.VerifyLinks` | blockchain/layer_mainchain.cpp:288-328 | waiting only without a heavy node, accepted only if both checks of both links allow it; the first link that fails is flagged alone, and its sender is told why through its heavy node |
| `Ledger.AddTip` | blockchain/layer_mainchain.cpp:337-348 | a new node with the links found, at the front of the list |
| `Ledger.MoveLinks` | blockchain/layer_mainchain.cpp:349-417 | both links become part of the graph; each moves its tokens and has its two notices sent only if it had not, and once if they coincide |
| `Ledger.Notify` | blockchain/layer_mainchain.cpp:367-382 | each party with a heavy node gets its notice in that device's queue, the others' notices wait in the main chain's queue, in that order: status 3 for the sender, 4 for the receiver |
| `Ledger.RemoveDags` | blockchain/layer_mainchain.cpp:418-435 | the in-place relinking leaves exactly the tips that have not moved their tokens, in order |
| `Ledger.Accept` | blockchain/layer_mainchain.cpp:335-436 | the whole effect of an accepted transaction on nodes, list, accounts, queue and notices sent |
| `Ledger.Enter` | blockchain/layer_mainchain.cpp:283-436 | waiting, rejected with one link flagged and one refusal sent, or accepted, whatever the address checks answer and whichever entries the balance checks read |
| `Ledger.LinksExactIff` | blockchain/layer_mainchain.cpp:283-417 | whatever verification has compared, the links of an accepted transaction move their tokens without wrap-around exactly if their senders cover them in turn |
| `Ledger.HandleTransfer` | blockchain/layer_mainchain.cpp:265-437 | a rejected tip is reused exactly when there is one; otherwise as before, with the notice of a rejection |
| `Ledger.RecvTransfer` | blockchain/layer_mainchain.cpp:263-468 | a transaction stays, with nothing changed, only if no tip was rejected and the sender of one of the two correct tips picked has no heavy node; it enters in the place of a rejected tip if there is one, and else as a new node linked to the tips picked, or to none if there is none; it leaves only by rejecting one tip; the notices of its links are appended |
| `Ledger.TransactionRecv` | blockchain/layer_mainchain.cpp:251-470 | ends with a fate for every queued message and the tips, accounts and notices after each of them (`Views.Takes`): the new queue is what stays and then the new notices, what enters is appended to the taken transactions, in order, and as many leave as refusals are sent; the invariant holds and the accounts differ by the deals of the newly moved transactions |
| `Views.UnmovedIs` | blockchain/layer_mainchain.cpp:418-435 | what removal of the settled tips leaves is every tip that has not moved its tokens, as often as it was listed, and nothing else |
| `Views.StaysIs` | blockchain/layer_mainchain.cpp:263-331 | a transaction waits only if no tip is rejected and the sender of some tip has no heavy node, and then nothing changes |
| `Views.LeavesIs` | blockchain/layer_mainchain.cpp:288-328 | a transaction is dropped only if no tip was rejected, and it leaves exactly one that is |
| `Views.EntersIs` | blockchain/layer_mainchain.cpp:265-436 | a transaction that enters is a tip from then on: in the place of the first rejected one, or at the head of the list |
| `Views.FirstEnters` | blockchain/layer_mainchain.cpp:157-170 | the first queued transaction of a chain without tips enters |
| `Views.DroppedThenEnters` | blockchain/layer_mainchain.cpp:265-331 | when a transaction has been dropped, the next one enters, in the place of the rejected tip |
| `Views.NoneWaits` | blockchain/layer_mainchain.cpp:229-249 | where every device has a heavy node, no transaction waits |
| `Views.FirstTaken` | blockchain/layer_mainchain.cpp:541-562 | a chain without tips takes the first transaction of its queue in its next turn over transactions |
| `Views.NoneLeft` | blockchain/layer_mainchain.cpp:541-562 | where every device has a heavy node, no transaction is queued after such a turn |
| `Deals.LeftAre` | blockchain/layer_mainchain.cpp:251-470 | the messages that stay are those whose fate it is, in order |
| `Deals.EnteredAre` | blockchain/layer_mainchain.cpp:251-470 | the transactions taken are those whose fate is to enter, in order |
| `Deals.FatesPart` | blockchain/layer_mainchain.cpp:251-470 | the transactions that stay and those that enter are different queued ones |
| `Deals.LeftIsPart` | blockchain/layer_mainchain.cpp:251-470 | what stays was queued, and connect messages stay first |
| `Ledger.BookedTotal` | blockchain/layer_mainchain.cpp:251-470 | accounts that differ by settled deals between listed devices have the same sum modulo 2^32 |
| `Ledger.LedgerRecv` | blockchain/layer_mainchain.cpp:484-539 | the notice goes to the device found, and the queue is cut at it, since it is linked into that device's queue before it is unlinked |
| `Ledger.NothingLostIff` | blockchain/layer_mainchain.cpp:484-539 | no transaction is lost exactly if none is queued behind the delivered notice |
| `Ledger.TransferLost` | blockchain/layer_mainchain.cpp:484-539 | a transaction queued behind a delivered notice is lost |
| `Ledger.Process` | blockchain/layer_mainchain.cpp:541-562 | every step, for every kind of message at the head of the queue, is the turn of that kind (`Views.Turns`): connect_recv, transaction_recv with the wake-up message, or ledger_recv; a chain without tips takes the transaction at the head, and with heavy nodes everywhere no transaction is left; it keeps the invariant, all earlier nodes and moves, and the sum of all tokens, settles the deals of the newly moved transactions and nothing else, and takes or keeps no transaction that was not there |
| `Ledger.Run` | blockchain/layer_mainchain.cpp:541-562 | on every run from an unstarted chain: each event inserts its message or is such a turn, so queue, tips, list, notices and taken transactions follow the turns from the start; the accounts are the initial ones after exactly the deals of the moved transactions, none of which moves twice; the sum of tokens never changes modulo 2^32, and is the same number if every moved deal was covered in its turn; only queued transactions are taken, the graph is acyclic, groups are 1 to dag_number, connect messages come first |

## Left out

- Scalar.GroupLaw: associativity of curve addition and primality of p are hypotheses, as is `Joint.Standard`; they are facts about the curve, not about the code.
- Ladder.EccPointMult: scalars 0 and 1, for which the code reads past the scalar, are excluded; for points off the curve only the ending is stated.
- Ecdsa.Verify: needs a public key on the curve, as section 6.4 of FIPS 186-4 does; `Ecdh.ValidPublicKey` decides it.
- Ecdsa.Sign: random numbers 1, n and n + 1, which give the ladder a scalar of 0 or 1, are excluded.
- Ecdh.MakeKey: random numbers 1 and n + 1, which give the ladder the scalar 1, are excluded.
- Ecdh.SharedSecret: private keys 0 and 1 are excluded, as for the ladder.
- BignumExp.ModExp: the temporary buffer is as large as the products need; the code's own size, the larger of length_p^2 and length_a + length_b, is not modelled.
- BignumExp.ModSub: in the buffer of p, for a < b with b longer than p, two values are allowed; which of them is computed depends on the guesses of the division.
- Sha256.Sha256Ctx.Final: messages of 2^64 bits and more are excluded, as by the standard.
- Sponge.Sha3Ctx.Absorb: bit lengths are unbounded, so the wrap-around of databitlen plus the queued bits at 2^32 is not modelled.
- Mainchain.Remove: queue nodes are places of a sequence; their links and memory are not captured, except for whether `prev` is set. The code compares with a number in the message it has just freed; the model reads it before.
- Mainchain.Chain.Insert: the message queue is a sequence; relinking of queue nodes and their memory is not captured.
- Layer.Collect: the caller's code that deletes the collected nodes is not modelled.
- Layer.Transaction: links are fixed when a node is made; the one place that re-links nodes, when the whole ledger answer is handled by index, is not part of this model.
- Ledger.LedgerRecv: the notice is deleted once it has been linked into the device's queue, so its entry in `sent` stands for freed memory; the copy made of it is never used. What devices do with the messages sent to them is not modelled. The code looks a heavy node up by a transaction number, so the outcome of that search is an arbitrary answer.
- Ledger.HandleTransfer: the transaction's index, plain and cipher text and proof of work are not kept, so a refusal does not name the index.
- Ledger.Reuse: as for Ledger.HandleTransfer, only the deal of the overwritten tip is kept.
- Ledger.AddTip: as for Ledger.HandleTransfer, only the deal of the new node is kept.
- Ledger.TransactionVerify: plain and cipher text are not kept, so the outcome of the RSA address check and the length of its result, up to 4, are arbitrary; so is what lies past a list of fewer than five devices.
- Ledger.Run: group numbers left over from the allocation of the list are not modelled; every device starts in group 0.
- `_div`, `_adc`, `_modinv`, `_modadd`, `_xor`, `_sr` and the single-byte `_modexp`: not used outside key generation.
- `rsa_genkey`, `rsa_genprime`, `rsa_verifyprime`: key generation, a random search for primes.
- The secp128r1, secp192r1 and secp384r1 branches of `ecc.c`: compiled out.
- Byte order of casts: the Keccak state is cast as on a little-endian machine; tables are filled once, before use.
- `dag_copy`, `dag_height`, device routes, device-side token counts, `layer_device.cpp`: drawing, or the devices' own bookkeeping.
- `aes.c`, `drng.c`, `ota.c`, drivers, Bluetooth and user-interface code: other standards or hardware.
- Allocation, buffer sizes beyond what the contracts require, timing, and the strength of hashes and proofs of work.
