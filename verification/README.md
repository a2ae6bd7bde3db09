# Verified models of the freight platform's cores

Dafny models of ten algorithmic cores of the backend, each proved against what its comments and
documentation promise. Code that updates state is modelled as classes and loops proved against
specification functions; the main theorems are about those functions, and about whole runs where the
code is a protocol.

| core | files here | main results |
|---|---|---|
| Kyber-style key encapsulation | `Sums`, `Negacyclic`, `ModuleLattice`, `KyberKem` | `KyberKem.DecapsulationCorrectIff`, `KyberKem.Exchange` |
| Reed-Solomon storage | `GF256`, `GFMatrix`, `GFTranspose`, `Minors`, `RecoveryLimits`, `ReedSolomon`, `ReedSolomonStorage` | `GFMatrix.InvertSquareMatrix`, `ReedSolomonStorage.StoreAndRecover`, `ReedSolomon.AnyKOfN` |
| Secret sharing and aggregation | `NumberTheory`, `Lagrange`, `ShamirEngine`, `SecretSharingService`, `SmpcProtocol` | `ShamirEngine.SplitThenReconstruct`, `SmpcProtocol.SMPCProtocol.SecureAggregate`, `SmpcProtocol.MeanIsTrueIff` |
| Route encoding and decoding | `RouteFormulation`, `RouteCycles`, `RouteExtraction`, `RouteSolutions` | `RouteCycles.EncodesHamiltonianCycles`, `RouteExtraction.ExtractRoute`, `RouteSolutions.SolvedRoute` |
| Linkable ring signature | `Hex`, `CurveArithmetic`, `PublicKeys`, `RingSignatures`, `RingBinding` | `RingSignatures.SignedIsAccepted`, `AcceptedIff`, `SameMemberSameImage`, `RingBinding.BoundToContents`, `CurveArithmetic.AddOnCurve` |
| Event store | `OrderEvents`, `EventStoreCache`, `EventStoreProtocol`, `EventStoreRuns`, `EventStoreStates`, `RebuildStream` | `EventStoreRuns.NoLostUpdate`, `ReadYourWrites`, `EventStoreStates.StateIsReplay`, `RebuildStream.RebuildFromPages` |
| Replay buffer | `StreamBuffers` | `StreamBuffers.StreamBuffer.PushEvent`, `GetMissedEvents` |
| Dirty-rectangle renderer | `FrameBuffers`, `Terminals`, `DirtyRects`, `RenderOutput`, `DirtyRenderers`, `RenderSessions` | `DirtyRenderers.DirtyRenderer.Render`, `RenderSessions.StaysInStep`, `ShownIff` |
| Priority scheduler | `SchedulerState`, `RenderSchedulers`, `SchedulerRuns`, `SchedulerOrder`, `SchedulerOrphans` | `SchedulerRuns.RunIsSafe`, `AtMostThreeStarts`, `DependenciesFirst`, `AlwaysProgress`, `SchedulerOrder.FirstComeFirstServed`, `SchedulerOrphans.OrphansStay` |
| Base58 and peer DIDs | `Numerals`, `Base58`, `CarryEncoder`, `Texts`, `PeerDid` | `Base58.DecodeEncode`, `EncodeDecode`, `CarryEncoder.EncodersAgree`, `PeerDid.ResolveCreated` |

## What is assumed

- Digests (SHA-256, keccak, the event hash) are arbitrary functions; random draws are arbitrary inputs.
- Primality of 2^127 - 1, of the secp256k1 field and of its order, associativity of point addition on the curve and
  n P = infinity for every point are hypotheses (`Prime`, `Known`, `Sound`). `KnownIsPossible` and
  `SoundIsPossible` show that they can hold together. That points stay on the curve is proved, not assumed.
- The event table keeps (aggregate, version) unique, and a fetch returns the rows in order of version.
- JSON with base64url is a codec whose reader undoes its writer and whose output has no dot (`Faithful`).
- The terminal obeys CUP, CUD, CHA and CUF as in ECMA-48 (8.3.21, 8.3.19, 8.3.9, 8.3.20) and newline as
  CR LF, and is wider than the frame.

## What the proofs found

- **Kyber.** With q = 3329 and the code's threshold a bit is recovered if and only if its noise, centred
  modulo q, lies in [-832, 832] for a 0 and in [-831, 832] for a 1. The noise itself is an exact formula
  in the draws and the three compression losses, bounded by 2 (ten bits) and 104 (four bits).
- **Reed-Solomon.** The comment that any k of the n shards recover the file holds exactly for some sizes
  (`AnyKOfN`): m <= 3, or k <= 3, or m = 4 with k <= 21, or k = 4 with m <= 21, or k = m = 5. For every
  other size there is a loss that cannot be repaired: with k = 6 and m = 5 it is enough to lose data shards
  0, 3, 5 and parity shards 2, 3. From intact shards decoding never returns wrong bytes: it errs exactly when the
  first k rows present are dependent. From other shards it returns the file only if what they hold is what the file's
  shards hold; a shard shorter than the given size counts as continued with bytes 1, because `gmul` looks up the
  logarithm of 0 for what JavaScript reads there. Encoding throws for some short files: the copy of the last data shard must
  not start beyond the end of the file.
- **Aggregation.** The comment in `smpc_service.py` speaks of fixed-point scaling and of the true mean; the code
  rounds a float to an integer, and the average divides the field element. Sum and mean are the true ones
  exactly when the true sum is a whole number and the rounded values add up to it modulo p, which without
  fractions means that it lies in [0, p) (`SumIsTrueIff`, `MeanIsTrueIff`), and the maximum is the largest
  residue (`MaxIsTrueIff`): -1 adds up to p - 1 and is taken to be greater than 5, and 0.4 adds up to 0
  (`WrongAnswers`).
- **Routes.** The comment that fewer than six nodes need no flow variables is right (`SmallIsWhole`).
  A solution is decoded to a round trip through all nodes exactly when no node's name has an underscore
  (`SolvedRoute`): variables with such a name are not read back.
- **Ring signature.** Uncompressed keys are taken without checking the curve equation, and a member is
  found by comparing abscissa and parity only. A fresh signature is accepted exactly when the point its
  signer's entry decodes to gives the first challenge again (`AcceptedIff`). A point of the curve always
  does, and a matching compressed or x-only entry always is one; with an uncompressed entry off the curve
  a signature can be refused (`OffCurveRejected`). A verification over an empty ring has no link to compare
  (`EmptyRingAccepted`).
- **Event store.** A snapshot can hold events later than its version label, because the state is read
  after the label. The comment that `getAggregateState` gives the identical result in every case holds if and
  only if the snapshot differs from the replay up to its label only in fields that the events after it write
  (`RebuiltIsReplayIff`). It does whenever the stream read is at least as long as the log was when the
  snapshot was stored (`StateIsReplay`); a reader with a shorter cached stream can build a state that is the
  replay of no part of the log (`StaleRun`), and the order read model is written from such a state. Once the
  whole log is applied the result is right again (`CaughtEarlier`, `SnapshotsReplay`), and commands stay
  safe: one that is committed has seen the replay of all events before it (`NoLostUpdate`).
- **Replay buffer.** Pushing an evicted number again counts it as ingested and evicted once more, and leaves the window
  as it is. A request for missed events returns at least one event even when asked for none.
- **Renderer.** Drawing while disabled loses changes unless every drawn cell is off the screen, dirty already or
  as it was shown (`SetPixel`, `SetRow` and `SetRegion` have the exact conditions). If the first render finds
  nothing dirty, no render is forced to be full later (`ShowDrawShow`). In a new renderer and after a resize both
  frames count as blank although the terminal may not be: it shows the picture exactly when the cells no
  render has written since were right at the start (`ShownIff`, `FirstShownIff`), and a render with nothing
  drawn writes nothing at all (`ResizeAndShow`).
- **Scheduler.** Moving a task to a priority that does not exist throws after the task has left its
  queue; it then stays pending in no queue (`ChangePriority` has the exact condition). Scheduling with such a
  priority uses up an id. The comment that blocked tasks are removed holds exactly for the direct
  dependents of a failed task that is still known (`PendingRemovedIff`): their own dependents wait forever
  (`OrphanReached`, `OrphansStay`), unless the dependency is removed or the task cancelled.
- **Base58.** The two encoders agree on exactly the inputs with a non-zero byte. On all zeros the carry
  encoder writes one `1` more; on no bytes at all it returns the empty string where the other throws.

## Model

| member | source | states |
|---|---|---|
| `KyberKem.CompressError10` | backend/pqc/kyber.py:91-97 | decompressing a compressed coefficient at ten bits moves it by at most 2, measured centred modulo 3329 |
| `KyberKem.CompressError4` | backend/pqc/kyber.py:91-97 | the same at four bits: at most 104 |
| `KyberKem.CompressIsField` | backend/pqc/kyber.py:91-93 | compressing to d bits gives a number of d bits that is nearest to the coefficient times 2^d / 3329, modulo 2^d |
| `KyberKem.FieldUnique` | backend/pqc/kyber.py:91-93 | there is only one such number, because 3329 is odd |
| `KyberKem.DecompressNearest` | backend/pqc/kyber.py:95-97 | decompressing rounds the number times 3329 / 2^d to nearest, ties to even |
| `KyberKem.LossBounds` | backend/pqc/kyber.py:91-97 | the two bounds for every coefficient of a polynomial, so the compression part of the noise is bounded |
| `KyberKem.NegacyclicMeaning` | backend/pqc/kyber.py:52-57 | folding the plain convolution of padded length 2n is multiplication modulo x^n + 1: each coefficient is congruent to the sum over one window of the products of the sign-alternating extensions |
| `Negacyclic.ConvComm` | backend/pqc/kyber.py:52-57 | that multiplication is commutative |
| `Negacyclic.ConvAssoc` | backend/pqc/kyber.py:52-57 | that multiplication is associative |
| `ModuleLattice.Adjoint` | backend/pqc/kyber.py:154-159 | (A x) . y equals (A^T y) . x over the ring, for every dimension: why the masks of both sides agree |
| `ModuleLattice.DotSplit` | backend/pqc/kyber.py:161-165 | a product with a vector that is a sum of three modulo q splits into three products |
| `KyberKem.Keygen` | backend/pqc/kyber.py:99-139 | the nested loops compute A s + e coefficient by coefficient modulo q, and the published key has for each coefficient x a ten-bit number, one nearest to 1024 x / 3329 modulo 1024 |
| `KyberKem.MultiplyTransposed` | backend/pqc/kyber.py:154-159 | the loops with swapped indices compute A^T r + e1 |
| `KyberKem.MaskMessage` | backend/pqc/kyber.py:161-172 | the accumulation gives t . r + e2 + 1664 times the message, modulo q |
| `KyberKem.Encapsulate` | backend/pqc/kyber.py:141-187 | the ciphertext has, for each coefficient of those two values, a ten-bit and a four-bit number nearest to its 1024 or 16 parts modulo 1024 or 16; they are made from the decompressed key, and the secret is the digest of the message |
| `KyberKem.Decapsulate` | backend/pqc/kyber.py:189-214 | the message read back is the threshold decoding of v - s . u after decompression, and the secret its digest |
| `KyberKem.KeySide` | backend/pqc/kyber.py:161-165 | t . r with the compressed key is (A s) . r plus e . r plus the compression loss times r |
| `KyberKem.CipherSide` | backend/pqc/kyber.py:202-204 | s . u with the compressed ciphertext is the same (A s) . r plus s . e1 plus s times the compression loss |
| `KyberKem.RecoveredIsMessagePlusNoise` | backend/pqc/kyber.py:196-204 | what decapsulation recovers is 1664 times the message bit plus exactly the noise e r + loss(t) r + e2 + loss(v) - s e1 - s loss(u), modulo q |
| `KyberKem.DecodeExact` | backend/pqc/kyber.py:206-208 | the threshold gives the bit back if and only if the centred noise lies in [-832, 832] for a 0 and [-831, 832] for a 1 |
| `KyberKem.BitRecoveredIff` | backend/pqc/kyber.py:196-208 | a message bit survives if and only if its noise coefficient lies in the window of that bit |
| `KyberKem.DecapsulationCorrectIff` | backend/pqc/kyber.py:141-214 | the whole message is recovered if and only if every noise coefficient lies in its window |
| `KyberKem.Exchange` | backend/pqc/kyber.py:99-214 | running key generation, encapsulation and decapsulation one after the other: both sides hold the same secret whenever every noise coefficient lies in [-831, 832], and the message is recovered exactly under the two-sided condition |
| `GF256.FillExpLog` | backend/storage/reed_solomon.js:22-28 | after the first loop the tables hold the powers of alpha and their logarithms, entry 0 untouched |
| `GF256.RepeatExp` | backend/storage/reed_solomon.js:29-31 | the second half of the power table repeats the first with period 255 |
| `GF256.FillInv` | backend/storage/reed_solomon.js:32-35 | the inverse table holds the inverse of every non-zero byte |
| `GF256.InitGaloisField` | backend/storage/reed_solomon.js:21-36 | the three finished tables agree with power, logarithm and inverse of the field for every entry |
| `GF256.NoShortPeriod` | backend/storage/reed_solomon.js:21-28 | no power of alpha below the 255th is 1 |
| `GF256.ExpDistinct` | backend/storage/reed_solomon.js:21-28 | the first 255 powers of alpha are pairwise different |
| `GF256.ExpSurjective` | backend/storage/reed_solomon.js:21-28 | every non-zero byte is one of them |
| `GF256.GmulIsMul` | backend/storage/reed_solomon.js:38-42 | multiplying through the logarithm table is polynomial multiplication modulo 0x11d, for all 65536 pairs |
| `GF256.MulComm` | backend/storage/reed_solomon.js:38-42 | field law: commutativity |
| `GF256.MulAssoc` | backend/storage/reed_solomon.js:38-42 | field law: associativity |
| `GF256.MulAddLeft` | backend/storage/reed_solomon.js:38-42 | field law: distribution over exclusive or from the left |
| `GF256.MulAddRight` | backend/storage/reed_solomon.js:38-42 | field law: distribution from the right |
| `GF256.NoZeroDivisors` | backend/storage/reed_solomon.js:38-42 | a product is zero only if a factor is |
| `GF256.GinvIsInverse` | backend/storage/reed_solomon.js:51-54 | ginv of a non-zero byte is its multiplicative inverse |
| `GF256.GpowAlpha` | backend/storage/reed_solomon.js:56-62 | gpow of alpha to any exponent is that power of alpha |
| `GF256.GpowIsPower` | backend/storage/reed_solomon.js:56-62 | gpow of any byte to a natural exponent is the product of that many factors |
| `GFMatrix.FindPivot` | backend/storage/reed_solomon.js:75-82 | the pivot search gives a row at or below the diagonal with a non-zero entry, and -1 only if there is none |
| `GFMatrix.EliminateColumn` | backend/storage/reed_solomon.js:96-103 | clearing a column finishes it as a unit column and keeps both matrices in step: the left one stays the right one times the input, and the right one stays injective |
| `GFMatrix.KernelWitness` | backend/storage/reed_solomon.js:82 | when no pivot is found the input matrix sends a non-zero vector to zero |
| `GFMatrix.InvertibleNotSingular` | backend/storage/reed_solomon.js:82 | a matrix with a left inverse sends no non-zero vector to zero |
| `GFMatrix.RightInverse` | backend/storage/reed_solomon.js:64-107 | the result also inverts from the right |
| `GFMatrix.InvertSquareMatrix` | backend/storage/reed_solomon.js:64-107 | for matrices of every size the result is a two-sided inverse, and the function throws if and only if the matrix is singular |
| `GFTranspose.Reaches` | backend/storage/reed_solomon.js:64-107 | a matrix that is not singular reaches every vector, by counting |
| `GFTranspose.TransposeRegular` | backend/storage/reed_solomon.js:64-107 | the transpose of a matrix that is not singular is not singular |
| `Minors.Exchange` | backend/storage/reed_solomon.js:126-132 | a square piece of the parity block is regular if and only if the piece with rows and columns exchanged is |
| `Minors.EvenlySpaced` | backend/storage/reed_solomon.js:126-132 | parity rows at equal distances are independent on any columns that their distance keeps apart, for every number of rows |
| `Minors.LocatorVanishes` | backend/storage/reed_solomon.js:126-132 | the polynomial whose roots are the columns sends every window of parity sums to zero |
| `Minors.GapRegular` | backend/storage/reed_solomon.js:126-132 | consecutive rows with one left out are independent on columns whose symmetric polynomial there does not vanish |
| `RecoveryLimits.NoTrinomial` | backend/storage/reed_solomon.js:22-28 | no 1 + alpha^i + alpha^j vanishes for 0 < i < j <= 20 |
| `RecoveryLimits.SafePieces` | backend/storage/reed_solomon.js:126-132 | for the safe sizes every square piece of the parity block is regular |
| `RecoveryLimits.UnsafePiece` | backend/storage/reed_solomon.js:126-132 | for every other size some piece is singular |
| `ReedSolomon.ChoiceRegular` | backend/storage/reed_solomon.js:200-202 | if every piece is regular, any k rows of the generator are independent |
| `ReedSolomon.PieceFails` | backend/storage/reed_solomon.js:200-202 | a singular piece gives a choice of k shards whose rows are dependent |
| `ReedSolomon.AnyKOfN` | backend/storage/reed_solomon.js:6-13 | for k and m in [1, 255] any k of the n shards determine the file if and only if m <= 3, or k <= 3, or m = 4 and k <= 21, or k = 4 and m <= 21, or k = m = 5 |
| `ReedSolomonStorage.ReedSolomonStorageManager.BuildGeneratorMatrix` | backend/storage/reed_solomon.js:119-134 | identity on top, below it the powers alpha^(j i) |
| `ReedSolomonStorage.ReedSolomonStorageManager.EncodeShard` | backend/storage/reed_solomon.js:136-147 | every byte of a parity shard is the generator row applied to the column of data bytes at that offset |
| `ReedSolomonStorage.ReedSolomonStorageManager.EncodeFile` | backend/storage/reed_solomon.js:149-175 | encoding is accepted if and only if the file is not empty and (k-1) s does not exceed its size, for the whole number s with k (s-1) < size <= k s; then s is the shard size and there are n shards, each its generator row applied to every column of the zero-padded file |
| `ReedSolomonStorage.ReedSolomonStorageManager.CollectPresent` | backend/storage/reed_solomon.js:185-194 | the shards that are there, in order, each with its position |
| `ReedSolomonStorage.ReedSolomonStorageManager.CombineByte` | backend/storage/reed_solomon.js:208-212 | one byte is the row of the inverse applied to the observed column |
| `ReedSolomonStorage.ReedSolomonStorageManager.Combine` | backend/storage/reed_solomon.js:205-214 | the nested loops put that byte at every place of the buffer, none missed and none overwritten |
| `ReedSolomonStorage.ColumnRecovered` | backend/storage/reed_solomon.js:205-214 | the inverse of the chosen rows applied to the observed column is the column of the file |
| `ReedSolomonStorage.DecodedIsFile` | backend/storage/reed_solomon.js:205-216 | the buffer, cut to the requested length, is the file for every file that explains the shards present |
| `ReedSolomonStorage.FileExplains` | backend/storage/reed_solomon.js:205-216 | the whole buffer is a padded file only if the shards used hold what the shards of that file hold |
| `ReedSolomonStorage.ReedSolomonStorageManager.DecodeFile` | backend/storage/reed_solomon.js:177-217 | decoding goes through if and only if there are at least k shards, the first k positions are below n and their rows are independent; the result is the bytes of every file that explains the shards, and with all bytes asked for it is a padded file if and only if that file explains them, shards cut short included |
| `ReedSolomonStorage.StoreAndRecover` | backend/storage/reed_solomon.js:149-217 | encode, lose all but at least k shards in any pattern, decode: the original bytes or an error; an error if and only if the first k rows left are dependent, and never for a safe size |
| `ReedSolomonStorage.EveryLossSurvived` | backend/storage/reed_solomon.js:177-202 | decoding goes through after every loss that leaves at least k shards if and only if the size is safe |
| `NumberTheory.Fermat` | backend/smpc/smpc_node.py:36 | a^(p-1) is 1 modulo a prime p for every a that p does not divide, proved by permuting the multiples of a |
| `NumberTheory.FermatInverse` | backend/smpc/smpc_node.py:36 | a^(p-2) is the inverse of a modulo p |
| `Lagrange.WeightsSumToOne` | backend/smpc/smpc_node.py:26-38 | the Lagrange weights of distinct points sum to 1 |
| `Lagrange.InterpolationAtZero` | backend/smpc/smpc_node.py:26-38 | for distinct points modulo a prime and any polynomial with at most as many coefficients, the weighted sum of its values is its value at 0 |
| `ShamirEngine.PowerSumIsEval` | backend/smpc/smpc_node.py:22 | the sum of powers is the polynomial with these coefficients |
| `ShamirEngine.SplitSecret` | backend/smpc/smpc_node.py:17-24 | n shares at 1..n, each the value of the polynomial with the secret as constant term, reduced modulo p |
| `ShamirEngine.LagrangeFactors` | backend/smpc/smpc_node.py:30-35 | the inner loop computes the two Lagrange products modulo p |
| `ShamirEngine.ReconstructSecret` | backend/smpc/smpc_node.py:26-38 | the loops compute the weighted sum of the share values with Fermat inverses, reduced modulo p |
| `ShamirEngine.WeightedSumIsSecret` | backend/smpc/smpc_node.py:26-38 | that sum is the constant term for any shares of a polynomial that are distinct and numerous enough |
| `ShamirEngine.RecoverSecret` | backend/smpc/smpc_node.py:26-38 | so reconstruction from enough distinct shares is the secret modulo p |
| `ShamirEngine.SplitThenReconstruct` | backend/smpc/smpc_node.py:17-38 | splitting and then reconstructing from any sufficiently large set of different shares gives the secret modulo p |
| `SecretSharingService.SecretSharing.EvaluatePolynomial` | backend/smpc/smpc_service.py:40-44 | the Horner loop is the value of the polynomial modulo p |
| `SecretSharingService.SecretSharing.GenerateShares` | backend/smpc/smpc_service.py:27-38 | rejected if and only if k exceeds n, and then the threshold stays; otherwise the threshold is k and the shares are the values at 1..n, none for n below 1 |
| `SecretSharingService.InvertibleIff` | backend/smpc/smpc_service.py:60 | a denominator has an inverse modulo the prime if and only if it is not a multiple of it |
| `SecretSharingService.SecretSharing.ReconstructSecret` | backend/smpc/smpc_service.py:46-62 | reconstruction goes through if and only if there are enough shares (the threshold and two) and their abscissae are distinct modulo p; the result is the Lagrange sum |
| `SecretSharingService.ServiceRecovers` | backend/smpc/smpc_service.py:46-62 | that sum is the constant coefficient modulo p for every polynomial the shares lie on |
| `SmpcProtocol.SMPCProtocol.RegisterParty` | backend/smpc/smpc_service.py:89-98 | a new party is added at the end, a known one changes nothing |
| `SmpcProtocol.SMPCProtocol.ShareSecret` | backend/smpc/smpc_service.py:130-157 | one share per party, party j holding the value at j + 1; rejected if and only if the parties are fewer than the threshold |
| `SmpcProtocol.SMPCProtocol.ShareAll` | backend/smpc/smpc_service.py:240-243 | every value is encoded once and shared, one polynomial each; rejected if and only if there is data and the parties are too few |
| `SmpcProtocol.EvalAdd` | backend/smpc/smpc_service.py:263-272 | adding coefficients adds values: the reason shares may be added |
| `SmpcProtocol.SumPolyHead` | backend/smpc/smpc_service.py:263-272 | the summed polynomial has the sum of the secrets as constant term |
| `SmpcProtocol.AddSharing` | backend/smpc/smpc_service.py:266-270 | adding one sharing to the dictionary turns shares of c into shares of c + d, in the same party order |
| `SmpcProtocol.AggregateSum` | backend/smpc/smpc_service.py:263-272 | the aggregated list holds, for every party, a share of the sum of all polynomials |
| `SmpcProtocol.SMPCProtocol.ReconstructTotal` | backend/smpc/smpc_service.py:245-250 | one reconstruction of the added shares is the total modulo p, an error for no data |
| `SmpcProtocol.SMPCProtocol.ReconstructAll` | backend/smpc/smpc_service.py:251-256 | reconstructing each sharing on its own gives back every encoded value |
| `SmpcProtocol.SMPCProtocol.SecureAggregate` | backend/smpc/smpc_service.py:231-261 | it answers if and only if there is data, there are three parties and the operation is known; the answer is the sum of the encoded values modulo p, that sum over their number, or the largest of them |
| `SmpcProtocol.SumIsTrueIff` | backend/smpc/smpc_service.py:245-247 | on any numbers, fractions included, the sum is the true sum if and only if that is whole and what the rounded values add up to modulo p; without fractions, if and only if it lies in [0, p) |
| `SmpcProtocol.MeanIsTrueIff` | backend/smpc/smpc_service.py:14-18 | and the average is the true arithmetic mean under exactly the same conditions |
| `SmpcProtocol.SumIsNear` | backend/smpc/smpc_service.py:120-128 | with floats the sum is off by at most half a unit for each value, while the rounded sum stays in [0, p) |
| `SmpcProtocol.OneValueIff` | backend/smpc/smpc_service.py:120-128 | a single value comes back if and only if it is a whole number in [0, p) |
| `SmpcProtocol.MaxIsTrueIff` | backend/smpc/smpc_service.py:251-256 | the maximum is the largest of the rounded values if and only if that lies in [0, p) and no negative value wraps to above it |
| `SmpcProtocol.WrongAnswers` | backend/smpc/smpc_service.py:14-18 | the sum of -1 is p - 1, the sum of 0.4 is 0, and the maximum of -1 and 5 is p - 1 |
| `SmpcProtocol.EncodedFloat` | backend/smpc/smpc_service.py:125-126 | a float is encoded as a whole number nearest to it, an even one when it lies in the middle, reduced modulo p |
| `SmpcProtocol.HalfIsEven` | backend/smpc/smpc_service.py:125-126 | the sum of one float in the middle between two whole numbers is the even one modulo p |
| `SmpcProtocol.JsonComesBack` | backend/smpc/smpc_service.py:127-128 | the sum of one value of another kind is its text as one number, first byte most significant, modulo p |
| `RouteExtraction.ReadSelected` | backend/quantum/quantum_service.py:100-105 | exactly the pairs named by two-part x_ variables whose bit is set, in order |
| `RouteExtraction.ParsesIff` | backend/quantum/quantum_service.py:101-105 | a name is read as the edge (u, v) if and only if it is x_u_v and neither end has an underscore |
| `RouteExtraction.BuildAdjacency` | backend/quantum/quantum_service.py:110-113 | every node of the selection is a key, and its list has a neighbour if and only if a selected edge joins them |
| `RouteExtraction.Component` | backend/quantum/quantum_service.py:115-123 | the search ends with a set that contains the start, is closed under the edges, and is part of every closed set that contains the start |
| `RouteExtraction.ComponentDecides` | backend/quantum/quantum_service.py:115-125 | the selection is connected if and only if that set is all its nodes |
| `RouteExtraction.FindEdge` | backend/quantum/quantum_service.py:133 | the first remaining edge at the node, -1 if and only if there is none |
| `RouteExtraction.WalkFinished` | backend/quantum/quantum_service.py:127-139 | when the stack is empty on a connected selection of even degrees the route is a closed walk through every selected edge once |
| `RouteExtraction.OrderEdges` | backend/quantum/quantum_service.py:127-139 | the two-stack walk ends on every selection, and on a connected one of even degrees it is such a closed walk from the start |
| `RouteExtraction.DegreeTwoVisits` | backend/quantum/quantum_service.py:127-143 | with all degrees 2 a closed walk through all edges visits every node exactly once before it returns |
| `RouteExtraction.DecodeRoute` | backend/quantum/quantum_service.py:93-139 | None if and only if the lengths differ, nothing is selected or the selection is disconnected; a closed walk through each selected edge once when all degrees are even; a tour when they are two |
| `RouteExtraction.MapBack` | backend/quantum/quantum_service.py:141-143 | every name becomes the last id that is written so, or stays a name if and only if no id is; the names do not change |
| `RouteExtraction.ExtractRoute` | backend/quantum/quantum_service.py:93-143 | the same for the names of the entries of the answer, each the last id with that name or the name itself |
| `RouteFormulation.ConservationTerms` | backend/quantum/quantum_circuit.py:226-238 | inflow minus outflow, with the dictionary semantics of repeated keys |
| `RouteFormulation.AddFlow` | backend/quantum/quantum_circuit.py:194-253 | appends the flow variables with their bounds, both capacity constraints per edge and one conservation constraint per node, and nothing else |
| `RouteFormulation.IsConnected` | backend/quantum/quantum_circuit.py:145-146 | the search over the edges answers whether no proper part of the nodes is closed, nodes without edges included |
| `RouteFormulation.FormulateRouteOptimization` | backend/quantum/quantum_circuit.py:142-258 | accepted if and only if there are three nodes, the graph is connected and every node has degree two, a loop counting twice; the program built is then the specified list of variables, constraints and objective |
| `RouteCycles.DegreeGivesTwo` | backend/quantum/quantum_circuit.py:172-183 | a satisfied degree constraint means the node has exactly two chosen neighbours |
| `RouteCycles.CloseRing` | backend/quantum/quantum_circuit.py:172-183 | in a two-regular selection every path closes to a ring |
| `RouteCycles.SmallIsWhole` | backend/quantum/quantum_circuit.py:185-189 | with fewer than six nodes a ring of a two-regular selection is all of it |
| `RouteCycles.FlowReachesAll` | backend/quantum/quantum_circuit.py:191-253 | with a satisfied flow the ring through the root contains every node |
| `RouteCycles.FeasibleMeans` | backend/quantum/quantum_circuit.py:142-253 | a satisfied program has binary edges with degree sums 2 and, from six nodes on, a bounded flow with the right net at every node |
| `RouteCycles.MeansFeasible` | backend/quantum/quantum_circuit.py:142-253 | and these facts satisfy every constraint of the program |
| `RouteCycles.FeasibleIsCycle` | backend/quantum/quantum_circuit.py:142-253 | every satisfying assignment selects a Hamiltonian cycle |
| `RouteCycles.CycleIsFeasible` | backend/quantum/quantum_circuit.py:142-253 | for every Hamiltonian cycle there is a satisfying assignment that selects it |
| `RouteCycles.EncodesHamiltonianCycles` | backend/quantum/quantum_circuit.py:142-253 | on a simple graph with at least three nodes an edge selection extends to a satisfying assignment if and only if it is a Hamiltonian cycle |
| `RouteSolutions.OptimumIsShortest` | backend/quantum/quantum_circuit.py:127-134 | an optimal assignment selects a Hamiltonian cycle of least total weight |
| `RouteSolutions.NamesDiffer` | backend/quantum/quantum_circuit.py:153-217 | variables between nodes without an underscore have different names: edge from edge, flow from flow, and edge from flow |
| `RouteSolutions.EdgeValues` | backend/quantum/quantum_circuit.py:281-295 | the values handed on are those of the edge variables, in order, under their names |
| `RouteSolutions.DegOfChosen` | backend/quantum/quantum_circuit.py:181-193 | the degree of a node in the selected edges is the value of its degree constraint |
| `RouteSolutions.CycleConnected` | backend/quantum/quantum_service.py:110-126 | the edges of a Hamiltonian cycle pass the connectivity test |
| `RouteSolutions.SolvedRoute` | backend/quantum/quantum_service.py:93-143 | from a satisfying assignment to the answer: it is a round trip through all nodes, each once, along selected edges and in the original ids, if and only if no name of a node has an underscore |
| `CurveArithmetic.ModIsEuclidean` | backend/privacy/ring_sig.js:24 | the double remainder is the remainder in [0, m), for negative numbers too |
| `CurveArithmetic.ModInv` | backend/privacy/ring_sig.js:26-34 | the extended Euclid loop returns the inverse in [0, m) whenever a and m are coprime |
| `NumberTheory.InverseCorrect` | backend/privacy/ring_sig.js:26-34 | if a and m are coprime the result times a is 1 modulo m |
| `NumberTheory.InverseUnique` | backend/privacy/ring_sig.js:26-34 | there is only one such number in [0, m) |
| `CurveArithmetic.ModPow` | backend/privacy/ring_sig.js:76-85 | square-and-multiply is the power modulo m |
| `CurveArithmetic.ThirdOnCurve` | backend/privacy/ring_sig.js:47-49 | the third intersection of a line, reflected, satisfies the curve equation |
| `CurveArithmetic.AddOnCurve` | backend/privacy/ring_sig.js:36-50 | the sum of two points of the curve is on the curve, in all five cases |
| `CurveArithmetic.SumIsReflected` | backend/privacy/ring_sig.js:36-50 | the sum of two points is infinity if and only if they are opposite, and otherwise the reflection of the third point on the chord or tangent through them |
| `CurveArithmetic.MultiplyPoint` | backend/privacy/ring_sig.js:52-62 | the double-and-add loop returns the (k mod n)-fold sum of a point of the curve |
| `CurveArithmetic.PointMulIsTimes` | backend/privacy/ring_sig.js:52-62 | double-and-add is the k-fold sum, k reduced modulo the order |
| `CurveArithmetic.TimesAdd` | backend/privacy/ring_sig.js:52-62 | (j + k) P is j P + k P |
| `CurveArithmetic.TimesTimes` | backend/privacy/ring_sig.js:52-62 | j (k P) is (j k) P |
| `CurveArithmetic.TimesMod` | backend/privacy/ring_sig.js:55 | reducing the scalar modulo the order changes nothing |
| `CurveArithmetic.ResponseCancels` | backend/privacy/ring_sig.js:190 | (alpha - c x) P + c (x P) is alpha P: why the closing response works |
| `CurveArithmetic.KnownIsPossible` | backend/privacy/ring_sig.js:18-22 | a small curve meets all the assumptions made about the constants |
| `PublicKeys.RootSquares` | backend/privacy/ring_sig.js:98-100 | for a prime that is 3 modulo 4 the power (p+1)/4 of a square is a root of it |
| `PublicKeys.LiftFinds` | backend/privacy/ring_sig.js:97-101 | the abscissa of a point lifts to that point or its opposite |
| `PublicKeys.LiftOnCurve` | backend/privacy/ring_sig.js:69-71 | what is accepted as a lift is on the curve |
| `PublicKeys.ParsePointKey` | backend/privacy/ring_sig.js:247-251 | parsing the canonical key of a point of the curve gives the point |
| `PublicKeys.KeysEqual` | backend/privacy/ring_sig.js:147 | equal keys mean equal abscissae and equal parity of the ordinates |
| `PublicKeys.SameParitySamePoint` | backend/privacy/ring_sig.js:147 | two points of the curve with these equalities are the same point |
| `PublicKeys.UncompressedUnchecked` | backend/privacy/ring_sig.js:93-95 | an uncompressed key is not checked: a text that decodes to a point off the curve and has the key of a point on it |
| `PublicKeys.ParseUncompressed` | backend/privacy/ring_sig.js:93-95 | an uncompressed key gives the two coordinates that it writes |
| `PublicKeys.ParseXOnly` | backend/privacy/ring_sig.js:104-110 | the x-only key of a point gives, of the two points over its abscissa, the one whose ordinate is a square |
| `PublicKeys.ParseStripped` | backend/privacy/ring_sig.js:92 | an 0x in front makes no difference |
| `PublicKeys.KeyForms` | backend/privacy/ring_sig.js:90-112 | only three forms are read: 04 with 130 characters, 02 or 03 with 66, which gives the parity of the ordinate, and 64 characters |
| `PublicKeys.LiftedOnCurve` | backend/privacy/ring_sig.js:96-110 | compressed and x-only keys decode to points of the curve whenever the abscissa is below p |
| `Hex.ParseToHex` | backend/privacy/ring_sig.js:87-88 | reading a written number gives the number |
| `Hex.PadRoundTrip` | backend/privacy/ring_sig.js:87-88 | also after padding with zeros |
| `Hex.ToHexShortest` | backend/privacy/ring_sig.js:88 | a number is written without leading zeros |
| `Hex.DigitsAre` | backend/privacy/ring_sig.js:87 | the digits that are read are the figures and the letters a to f in either case |
| `Hex.LastCharacter` | backend/privacy/ring_sig.js:87 | a white space at the end is skipped, and any other character that is no digit makes the text unreadable |
| `RingSignatures.TextRoundTrip` | backend/privacy/ring_sig.js:87-88 | a number below the field size survives bigToHex and hexToBig |
| `RingSignatures.TextForm` | backend/privacy/ring_sig.js:88 | they are written as 0x and 64 digits |
| `RingSignatures.SignerIsMember` | backend/privacy/ring_sig.js:145-154 | the entry that findIndex gives decodes to the signer point |
| `RingSignatures.ImageDecodes` | backend/privacy/ring_sig.js:133-160 | the key image decodes to the image point |
| `RingSignatures.CloseChain` | backend/privacy/ring_sig.js:166-190 | starting at the signer and going around, the loop fills every challenge with its link and closes the chain with the response; it fails if and only if a link hits the point at infinity |
| `RingSignatures.SignRingMessage` | backend/privacy/ring_sig.js:142-199 | signing succeeds if and only if a member matches, all keys and the image decode and no link hits infinity; the signature then carries the closed chain |
| `RingSignatures.WalkChain` | backend/privacy/ring_sig.js:224-240 | the loop accepts if and only if every challenge is the link of the one before, the first that of the last |
| `RingSignatures.VerifyRingSignature` | backend/privacy/ring_sig.js:201-244 | accepted if and only if lengths, message hash and ring agree, all numbers and keys decode and the chain closes |
| `RingBinding.AcceptedAsDocumented` | backend/privacy/ring_sig.js:11-13 | over a non-empty ring a signature is accepted if and only if its message hash is the hash of the message, its ring is the ring, and each challenge is the hash of L, r_i G + c_i P_i and r_i Hp(P_i) + c_i I modulo the order, where L is the hash of message hash, ring and key image |
| `RingBinding.ContentsDetermine` | backend/privacy/ring_sig.js:214-219 | the text under L determines message hash, ring and key image |
| `RingBinding.BoundToContents` | backend/privacy/ring_sig.js:210-219 | two accepted signatures with the same challenges agree in hash of the message, ring and key image, or two different texts that are given collide: under L, or as challenges modulo the order |
| `RingSignatures.SignerLeft` | backend/privacy/ring_sig.js:183-190 | at the signer the verifier recomputes the point alpha G, when the entry decodes to her point |
| `RingSignatures.SignerRight` | backend/privacy/ring_sig.js:183-190 | at the signer the verifier recomputes alpha Hp, whatever point the entry decodes to |
| `RingSignatures.ClosedVerifiesIff` | backend/privacy/ring_sig.js:182-240 | a chain closed at any position satisfies every equation from position 0 on if and only if it satisfies the one at the signer |
| `RingSignatures.AcceptedIff` | backend/privacy/ring_sig.js:142-244 | a fresh signature is accepted if and only if r_s G + c_s E gives the same challenge as alpha G, where E is the point that the entry of the signer decodes to; for every ring, position, message and scalars |
| `RingSignatures.LiftedSigner` | backend/privacy/ring_sig.js:90-110 | a matching entry that is not uncompressed decodes to a point of the curve |
| `RingSignatures.SignedIsAccepted` | backend/privacy/ring_sig.js:142-244 | whatever signing produces for any ring, position, message and scalars is accepted, unless the entry of the signer is uncompressed and off the curve |
| `RingSignatures.OffCurveRejected` | backend/privacy/ring_sig.js:93-95 | with such an entry signing goes through and verification refuses the signature: a concrete ring, key and scalars over a small curve, for every message |
| `RingSignatures.EmptyRingAccepted` | backend/privacy/ring_sig.js:201-244 | over an empty ring a signature is accepted if and only if it is empty, the message hash agrees and the key image decodes |
| `CurveArithmetic.TimesInjective` | backend/privacy/ring_sig.js:52-62 | with a prime order, multiples of a point agree only for scalars that agree modulo the order |
| `RingSignatures.SameMemberSameImage` | backend/privacy/ring_sig.js:133-140 | two signatures with the same public key carry the same image, whatever message, ring and form of the private key; the public key determines the private key modulo the order |
| `RingSignatures.SoundIsPossible` | backend/privacy/ring_sig.js:18-22 | the assumptions of the acceptance theorem can be met together |
| `OrderEvents.ApplyIsOverwrite` | backend/eventsourcing/event-sourcing-core.js:97-130 | the reducer overwrites the state with fields that depend on the event alone |
| `OrderEvents.WrittenFields` | backend/eventsourcing/event-sourcing-core.js:97-130 | what each type of event leaves in status, version, reason, cancelledAt, driverId and the fields of its payload |
| `OrderEvents.OtherFieldsStay` | backend/eventsourcing/event-sourcing-core.js:97-130 | all fields that its type does not write stay |
| `OrderEvents.FieldIsLastWritten` | backend/eventsourcing/event-sourcing-core.js:92-96 | after a replay a field is as the last event that writes it left it |
| `OrderEvents.FieldIsInitial` | backend/eventsourcing/event-sourcing-core.js:92-96 | and as at the start if none writes it |
| `OrderEvents.ReplayIsChanges` | backend/eventsourcing/event-sourcing-core.js:260-262 | replaying a list is one overwrite by all its changes |
| `OrderEvents.CaughtEarlier` | backend/eventsourcing/event-sourcing-core.js:260-262 | replaying again events the state already holds changes nothing in the end |
| `OrderEvents.CaughtReplay` | backend/eventsourcing/event-sourcing-core.js:260-262 | a state caught up to v and replayed to j is caught up to j |
| `OrderEvents.CaughtAppend` | backend/eventsourcing/event-sourcing-core.js:260-262 | appending to the log keeps a state caught up |
| `OrderEvents.SortOrdered` | backend/eventsourcing/event-sourcing-core.js:252-254 | sorting an ascending stream leaves it as it is |
| `OrderEvents.SortIsStable` | backend/eventsourcing/event-sourcing-core.js:252-254 | sorting gives the same events in ascending order of version, those of one version in their old order |
| `EventStoreCache.EventStoreCore.ClearCache` | backend/eventsourcing/event-sourcing-core.js:167-179 | empties the slot of one aggregate, or of all, and no other |
| `EventStoreCache.EventStoreCore.LoadCached` | backend/eventsourcing/event-sourcing-core.js:189-199 | gives the cached value, else the current load, else starts one that owns the slot |
| `EventStoreCache.EventStoreCore.Publish` | backend/eventsourcing/event-sourcing-core.js:201-207 | a load that still owns the slot publishes its value; a superseded one answers with what the slot offers now and publishes nothing |
| `EventStoreCache.EventStoreCore.Release` | backend/eventsourcing/event-sourcing-core.js:208-213 | a finished load gives up the slot only if it is its own |
| `EventStoreCache.EventStoreCore.CacheEvent` | backend/eventsourcing/event-sourcing-core.js:365-383 | revokes the load; a stream that ends just before the event is extended, one that has it stays, any other is dropped |
| `EventStoreCache.RebuildState` | backend/eventsourcing/event-sourcing-core.js:246-264 | null if and only if there is neither snapshot nor newer event; else the replay of the newer events, sorted, on the snapshot or the initial state |
| `EventStoreCache.RebuiltStatus` | backend/eventsourcing/event-sourcing-core.js:97-130 | the status of a rebuilt order is CREATED, CANCELLED or ASSIGNED by the type of the last applied event that writes it, or what an update wrote |
| `EventStoreCache.RebuiltDetail` | backend/eventsourcing/event-sourcing-core.js:111-127 | its reason, cancellation time and driver are those in the payload of the last event that writes them |
| `EventStoreCache.RebuiltUntouched` | backend/eventsourcing/event-sourcing-core.js:246-249 | a field that no applied event writes is the one of the snapshot, or the id and version 0 of a new order |
| `EventStoreCache.RebuiltNumbered` | backend/eventsourcing/event-sourcing-core.js:246-264 | on a log numbered from 1 that is the replay of exactly the events after the snapshot version |
| `EventStoreProtocol.OrderedIsLog` | backend/eventsourcing/event-store.js:38-49 | an ordered fetch of contiguous rows is the log |
| `EventStoreProtocol.InsertKeeps` | backend/eventsourcing/event-sourcing-core.js:341-358 | an insert, taken or refused by the unique index, keeps the invariant under all other tasks |
| `EventStoreProtocol.CacheKeeps` | backend/eventsourcing/event-sourcing-core.js:365-383 | adding the own event to the cache keeps every cache a prefix of the log |
| `EventStoreProtocol.RebuiltCaught` | backend/eventsourcing/event-sourcing-core.js:480-496 | the state rebuilt from any stored snapshot and any prefix of the log is caught up to every version label not beyond the prefix |
| `EventStoreProtocol.RebuiltVersion` | backend/eventsourcing/event-sourcing-core.js:246-264 | its version field is at least the length of the prefix, and it is caught up to the version it carries: replaying the whole rest of the log on it gives the full replay |
| `EventStoreProtocol.InsertedCommandOk` | backend/eventsourcing/event-store.js:287-303 | a command that is inserted saw the fold of all events before it |
| `EventStoreProtocol.CommandEffect` | backend/eventsourcing/event-store.js:270-342 | once its event is applied, a create, update, cancel or assign command has written the fields it asked for, with the status of its kind and, for an update, the state it saw |
| `EventStoreProtocol.MaxVersionIs` | backend/eventsourcing/event-sourcing-core.js:485 | the label of a snapshot is the highest version of the stream, or 0 |
| `EventStoreProtocol.NextKeeps` | backend/eventsourcing/event-sourcing-core.js:189-383 | every atomic step of every task keeps the invariant |
| `EventStoreRuns.VersionsAreContiguous` | backend/eventsourcing/event-sourcing-core.js:305-363 | in every run of any number of writers the committed versions are 1..n without gap or repeat |
| `EventStoreRuns.HistoryGrows` | backend/eventsourcing/event-sourcing-core.js:305-363 | a later log extends every earlier one, and snapshots and seen versions are never lost |
| `EventStoreRuns.CachesArePrefixes` | backend/eventsourcing/event-sourcing-core.js:189-225 | in every run each cached stream is a contiguous prefix of the committed log |
| `EventStoreRuns.StreamsArePrefixes` | backend/eventsourcing/event-sourcing-core.js:217-225 | so is every stream returned to a caller, and it is no older than what its instance had seen at the call |
| `EventStoreRuns.ReadYourWrites` | backend/eventsourcing/event-sourcing-core.js:189-225 | a getEventStream call begun after a local append returned contains the event, whatever loads and clears happen in between |
| `EventStoreRuns.NoLostUpdate` | backend/eventsourcing/event-store.js:287-303 | when all writes come from commands every committed ORDER_UPDATED carries as previousState the fold of all events before it |
| `EventStoreRuns.ExpectsLatest` | backend/eventsourcing/event-store.js:287-303 | a command that read the whole log expects exactly its last version, whatever snapshot it used |
| `EventStoreRuns.UpToDateGoesOn` | backend/eventsourcing/event-sourcing-core.js:313-330 | so it is not refused while nothing is appended, and goes on to insert the next version |
| `EventStoreRuns.SnapshotsReplay` | backend/eventsourcing/event-sourcing-core.js:480-496 | replaying the log of any later time after any snapshot ever stored is replaying everything from event 1 |
| `EventStoreRuns.StatesCatchUp` | backend/eventsourcing/event-sourcing-core.js:246-264 | a state that getAggregateState builds at any time is caught up to the stream it read: replaying the whole rest of the log on it gives the full replay |
| `EventStoreStates.RebuiltIsReplayIff` | backend/eventsourcing/event-sourcing-core.js:237-264 | a state built from a snapshot is the replay of the stream if and only if the snapshot differs from the replay up to its label only in fields that the events after it write |
| `EventStoreStates.RebuiltFromNothing` | backend/eventsourcing/event-sourcing-core.js:237-264 | without a snapshot the state is always the replay of the stream, and null exactly when there is no event |
| `EventStoreStates.StateIsReplay` | backend/eventsourcing/event-sourcing-core.js:237-264 | in every run the result is the replay of the stream read when there is no snapshot or the stream is at least as long as the log was when the snapshot was stored |
| `EventStoreStates.StaleRun` | backend/eventsourcing/event-sourcing-core.js:237-264 | a run, with a snapshot threshold of 1, in which a reader with a shorter cached stream gets a state that is the replay of no part of the log, so the result is not the same in every case |
| `RebuildStream.RebuildProjections` | backend/eventsourcing/event-store.js:486-522 | the list version writes one read model per aggregate with a state, in order of first occurrence, every assignment in order, and counts them |
| `RebuildStream.AggregatesAre` | backend/eventsourcing/event-store.js:486-522 | the aggregates are those that some row has, none twice |
| `RebuildStream.AggregatesInOrder` | backend/eventsourcing/event-store.js:486-522 | and in the order of their first rows |
| `RebuildStream.FiltersConcat` | backend/eventsourcing/event-store.js:486-522 | the rows of an aggregate and the assignments are kept in their order |
| `RebuildStream.ScanInvariant` | backend/eventsourcing/rebuild-stream.js:19-39 | after any rows the one-pass cursor holds the finished writes and the running state of the last aggregate |
| `RebuildStream.FlushWrites` | backend/eventsourcing/rebuild-stream.js:12-17 | a flush writes what the list version writes for that aggregate |
| `RebuildStream.ScanWritesAll` | backend/eventsourcing/rebuild-stream.js:19-40 | at the end the writes and counts are those of the list version |
| `RebuildStream.RebuildFromPages` | backend/eventsourcing/rebuild-stream.js:4-52 | for rows grouped by aggregate and ascending in version, every cut into pages and all snapshots, the streaming rebuild writes the same sequence with the same counts as the list version |
| `StreamBuffers.StreamBuffer.FindPlace` | backend/eventsourcing/event_replay.js:64-74 | the binary search ends where all smaller numbers are before and none after |
| `StreamBuffers.StreamBuffer.Evict` | backend/eventsourcing/event_replay.js:87-92 | drops the smallest numbers down to the capacity, in list and map, and counts them |
| `StreamBuffers.StreamBuffer.Accept` | backend/eventsourcing/event_replay.js:75-92 | after insertion and eviction the list is sorted, agrees with the map, holds the largest numbers ever pushed, and ingested is retained plus evicted |
| `StreamBuffers.StreamBuffer.PushEvent` | backend/eventsourcing/event_replay.js:34-103 | rejected if and only if the number is not positive, ignored if and only if it is retained; otherwise the retained numbers are the largest distinct ones ever pushed, each with its first payload, the record is chained to the hash of its predecessor, else of the last record, else GENESIS, and the gap counter grows by the numbers jumped over |
| `StreamBuffers.LargestAfterPush` | backend/eventsourcing/event_replay.js:75-92 | dropping the smallest of the n largest plus one new number leaves the n largest |
| `StreamBuffers.SeenIsDropped` | backend/eventsourcing/event_replay.js:75-92 | a number that was evicted and is pushed again is evicted again at once: the window does not change |
| `StreamBuffers.GapsAreMissing` | backend/eventsourcing/event_replay.js:113-124 | the gap list covers a number if and only if it lies between the retained ends and is not retained |
| `StreamBuffers.GapsTotal` | backend/eventsourcing/event_replay.js:113-124 | the missing counts add up to the span minus the number of events |
| `StreamBuffers.FindGaps` | backend/eventsourcing/event_replay.js:113-124 | the loop lists the gap after every event that has one |
| `StreamBuffers.StreamBuffer.DetectGaps` | backend/eventsourcing/event_replay.js:108-126 | exactly the numbers missing between the lowest and highest retained, and their total |
| `StreamBuffers.StreamBuffer.CollectFrom` | backend/eventsourcing/event_replay.js:162-169 | the window from the first number not below the start, cut after the requested count |
| `StreamBuffers.NothingMissed` | backend/eventsourcing/event_replay.js:162-169 | every number ever pushed that is not below a start inside the window is in what follows the start |
| `StreamBuffers.SliceIs` | backend/eventsourcing/event_replay.js:157 | slice(0, n) gives the first n events, or all but the last -n |
| `StreamBuffers.StreamBuffer.GetMissedEvents` | backend/eventsourcing/event_replay.js:132-193 | overrun if and only if the start is below the lowest retained number; otherwise, unless cut by the count, the answer has every event ever pushed from the start on |
| `FrameBuffers.FrameBuffer.SetPixel` | backend/renderer/FrameBuffer.js:31-62 | changes one cell or none; reports a change if and only if the cell is on the frame and different |
| `FrameBuffers.FrameBuffer.SetRow` | backend/renderer/FrameBuffer.js:64-75 | overwrites the cells of the row that have data, and reports a change if and only if some cell changed |
| `FrameBuffers.FrameBuffer.SetRegion` | backend/renderer/FrameBuffer.js:77-91 | overwrites the cells of the rectangle that have data and lie on the frame, and no other |
| `FrameBuffers.FrameBuffer.Fill` | backend/renderer/FrameBuffer.js:193-214 | every cell is the given pixel; a change is reported if and only if some cell changed |
| `FrameBuffers.FrameBuffer.Clear` | backend/renderer/FrameBuffer.js:165-191 | every cell is the character without attributes; a change in attributes alone counts |
| `FrameBuffers.FrameBuffer.Clone` | backend/renderer/FrameBuffer.js:235-245 | a new frame with the same picture and a buffer of its own |
| `DirtyRects.ClipIsIntersection` | backend/renderer/DirtyRenderer.js:66-78 | the clipped rectangle has exactly the cells of the rectangle that are on the screen |
| `DirtyRects.OverlapMeans` | backend/renderer/DirtyRenderer.js:202-205 | two rectangles overlap if and only if they share a cell |
| `DirtyRects.MergeIsLeast` | backend/renderer/DirtyRenderer.js:207-214 | of two rectangles the merged one is the smallest that contains both |
| `DirtyRects.Absorb` | backend/renderer/DirtyRenderer.js:172-184 | one rectangle with all it absorbed covers them; if it absorbed none it meets none of the rest |
| `DirtyRects.MergePass` | backend/renderer/DirtyRenderer.js:165-190 | one pass covers the same rectangles; it has fewer if something merged, and otherwise they were disjoint |
| `DirtyRects.CombineRects` | backend/renderer/DirtyRenderer.js:216-233 | the bounding rectangle covers all, stays on the screen and is contained in every rectangle that contains all |
| `DirtyRects.MergeDirtyRects` | backend/renderer/DirtyRenderer.js:159-200 | ends, stays on the screen, covers every dirty rectangle, is pairwise disjoint and has at most 20 rectangles |
| `RenderOutput.RenditionsDoNothing` | backend/renderer/DirtyRenderer.js:304-331 | colours and styles move nothing and print nothing |
| `RenderOutput.RenditionsSet` | backend/renderer/DirtyRenderer.js:304-331 | they bring exactly the attributes of the pixel that are not null into force |
| `RenderOutput.RectEffect` | backend/renderer/DirtyRenderer.js:268-302 | the output of a rectangle repaints exactly its changed cells, wherever the cursor was |
| `RenderOutput.DirtyEffect` | backend/renderer/DirtyRenderer.js:258-266 | the output of a list of rectangles repaints exactly the changed cells inside any of them |
| `RenderOutput.PartialShowsCurrent` | backend/renderer/DirtyRenderer.js:258-302 | if the rectangles cover the differences a terminal showing the previous picture then shows the current one |
| `RenderOutput.FullRowsEffect` | backend/renderer/DirtyRenderer.js:242-253 | the rows of a full frame are printed in place without scrolling |
| `RenderOutput.FullShowsCurrent` | backend/renderer/DirtyRenderer.js:235-256 | after a full frame every terminal that is wide and high enough shows the picture, whatever it showed before |
| `DirtyRenderers.DirtyRenderer.MarkDirty` | backend/renderer/DirtyRenderer.js:66-82 | adds exactly the on-screen cells of the rectangle to the dirty area |
| `DirtyRenderers.DirtyRenderer.SetPixel` | backend/renderer/DirtyRenderer.js:27-38 | draws one cell; while enabled, every difference to the previous frame stays inside a dirty rectangle; while disabled, if and only if the cell is off the screen, already dirty or unchanged against the previous frame |
| `DirtyRenderers.DirtyRenderer.SetRow` | backend/renderer/DirtyRenderer.js:40-51 | draws a row and, while enabled, keeps the differences covered; disabled, it keeps them covered exactly when each drawn cell on the frame is dirty already or as it was shown |
| `DirtyRenderers.DirtyRenderer.SetRegion` | backend/renderer/DirtyRenderer.js:53-64 | draws a region, with the same two statements about its cells |
| `DirtyRenderers.DirtyRenderer.Clear` | backend/renderer/DirtyRenderer.js:84-90 | clears the picture and keeps the differences covered, enabled or not |
| `DirtyRenderers.DirtyRenderer.Fill` | backend/renderer/DirtyRenderer.js:92-98 | fills the picture and keeps the differences covered, enabled or not |
| `DirtyRenderers.DirtyRenderer.Resize` | backend/renderer/DirtyRenderer.js:346-354 | both frames are new and blank, nothing is dirty |
| `DirtyRenderers.DirtyRenderer.ShouldFullRender` | backend/renderer/DirtyRenderer.js:139-157 | first frame, more than 20 rectangles, or more than half the screen |
| `DirtyRenderers.DirtyRenderer.RenderFullFrame` | backend/renderer/DirtyRenderer.js:235-256 | the loops write the tokens that FullShowsCurrent is about |
| `DirtyRenderers.DirtyRenderer.RenderRect` | backend/renderer/DirtyRenderer.js:268-302 | the loops write the tokens that RectEffect is about, comparing each cell with the previous frame |
| `DirtyRenderers.DirtyRenderer.RenderDirtyRects` | backend/renderer/DirtyRenderer.js:258-266 | the outputs of the rectangles one after the other |
| `DirtyRenderers.PartialPaintsChanges` | backend/renderer/DirtyRenderer.js:258-302 | with covered differences a partial output writes exactly the changed cells of the frame |
| `DirtyRenderers.DirtyRenderer.Render` | backend/renderer/DirtyRenderer.js:100-137 | with covered differences the output writes the whole frame when that is due and exactly the changed cells otherwise, so it brings every terminal of sufficient size from the previous picture to the current one; afterwards the previous frame is the current one and nothing is dirty |
| `RenderSessions.Draw` | backend/renderer/DirtyRenderer.js:27-98 | a drawing call does to the frame what it does to a plain picture, and leaves the previous frame alone |
| `RenderSessions.Perform` | backend/renderer/DirtyRenderer.js:27-367 | one drawing call, render, resize or switch is one step of the session model, with the terminal obeying what is written |
| `RenderSessions.Run` | backend/renderer/DirtyRenderer.js:27-367 | every list of drawing calls, renders, resizes and switches is a session: one such step after another |
| `RenderSessions.FrameIsDrawn` | backend/renderer/DirtyRenderer.js:27-98 | at every point of a session the frame is the picture of plain drawing since the last resize, enabled or not |
| `RenderSessions.StaysCovered` | backend/renderer/DirtyRenderer.js:66-82 | differences stay covered as long as nothing is drawn while disabled |
| `RenderSessions.StaysInStep` | backend/renderer/DirtyRenderer.js:100-137 | without a resize a terminal in step stays in step and shows the picture after each render |
| `RenderSessions.CellRightIff` | backend/renderer/DirtyRenderer.js:100-137 | from any covered start on, a cell of the terminal is as the previous frame has it if and only if it was at the start or some render has written it since |
| `RenderSessions.ShownIff` | backend/renderer/DirtyRenderer.js:100-137 | at a render after any covered start the terminal shows the picture if and only if every cell was right at the start or has been written since |
| `RenderSessions.FirstShownIff` | backend/renderer/DirtyRenderer.js:100-137 | at the first render after such a start that is: the full frame was written, or every cell the picture has as at the start was right there; the first render of a renderer writes the full frame exactly when something is dirty |
| `RenderSessions.ResizeStarts` | backend/renderer/DirtyRenderer.js:346-354 | a resize is a covered start with a blank previous frame and the terminal as it was |
| `RenderSessions.RunNew` | backend/renderer/DirtyRenderer.js:5-26 | so is the constructor: every list of commands on a new renderer is a session from a blank, clean and enabled start |
| `RenderSessions.ShowDrawShow` | backend/renderer/DirtyRenderer.js:139-147 | a first render with nothing dirty uses up the full frame: after one more pixel the second render leaves a letter standing beside it |
| `RenderSessions.ResizeAndShow` | backend/renderer/DirtyRenderer.js:346-354 | a render right after a resize writes nothing, so a terminal with a letter in the corner does not show the blank picture |
| `SchedulerState.LinkedKeeps` | backend/scheduler/RenderScheduler.js:425-436 | adding an edge keeps the invariant |
| `SchedulerState.UnlinkedKeeps` | backend/scheduler/RenderScheduler.js:438-457 | removing an edge keeps it, both lists in step |
| `SchedulerState.NobodyWaits` | backend/scheduler/RenderScheduler.js:121-127 | after the unlinking loop of cancel no task depends on the cancelled one |
| `SchedulerState.WaitedForStays` | backend/scheduler/RenderScheduler.js:384-417 | until a task fails for good, pruning never deletes what a live task waits for |
| `SchedulerState.PrunedKeeps` | backend/scheduler/RenderScheduler.js:384-417 | pruning keeps the invariant |
| `SchedulerState.SomethingCanStart` | backend/scheduler/RenderScheduler.js:238-270 | with nothing running, no task failed for good and no dependency cycle, some pending task can start |
| `RenderSchedulers.RenderScheduler.Schedule` | backend/scheduler/RenderScheduler.js:92-105 | a new pending task at the end of its queue; a priority without queue throws but uses up an id |
| `RenderSchedulers.RenderScheduler.AddDependency` | backend/scheduler/RenderScheduler.js:425-436 | succeeds if and only if both tasks are known, and lists the edge at both |
| `RenderSchedulers.RenderScheduler.RemoveDependency` | backend/scheduler/RenderScheduler.js:438-457 | succeeds if and only if the edge is listed, and takes one listing off at both ends |
| `RenderSchedulers.RenderScheduler.ChangePriority` | backend/scheduler/RenderScheduler.js:172-191 | moves a pending task to the end of the other queue; the invariant survives if and only if there was nothing to move or the new priority exists |
| `RenderSchedulers.RenderScheduler.GetNextTask` | backend/scheduler/RenderScheduler.js:238-260 | takes the first startable task of the most urgent queue that has one; null if and only if no pending task can start |
| `RenderSchedulers.RenderScheduler.ProcessOnce` | backend/scheduler/RenderScheduler.js:213-236 | starts a task only below the limit, with all dependencies completed and attempts left, the next one by urgency and order |
| `RenderSchedulers.RenderScheduler.Complete` | backend/scheduler/RenderScheduler.js:290-330 | the task is completed and no longer running, and the map is pruned |
| `RenderSchedulers.RenderScheduler.Fail` | backend/scheduler/RenderScheduler.js:332-354 | another try at the end of the queue while attempts are left, otherwise failed and pruned |
| `RenderSchedulers.RenderScheduler.CollectDead` | backend/scheduler/RenderScheduler.js:384-407 | exactly the finished tasks without live dependents and the pending ones with a failed or cancelled dependency, each once |
| `RenderSchedulers.RenderScheduler.PruneTaskMap` | backend/scheduler/RenderScheduler.js:384-417 | these leave map and queues together, all decided on the map before |
| `RenderSchedulers.RenderScheduler.Cancel` | backend/scheduler/RenderScheduler.js:107-144 | succeeds if and only if the task is pending; it leaves its queue, the map and the dependencies of others |
| `RenderSchedulers.RenderScheduler.CancelAll` | backend/scheduler/RenderScheduler.js:146-168 | empties one queue or all, cancelling in order what is still pending, and counts it |
| `RenderSchedulers.NeverStuck` | backend/scheduler/RenderScheduler.js:238-270 | an idle turn with nothing running, no final failure and no cycle means every known task is completed |
| `SchedulerRuns.Perform` | backend/scheduler/RenderScheduler.js:92-457 | every call of the class but cancelAll is one step of the run model, except moving a pending task to a missing priority, which leaves it in no queue and is the only call that breaks the invariant |
| `SchedulerRuns.PerformCancelAll` | backend/scheduler/RenderScheduler.js:146-168 | cancelAll is a path of cancel steps of the run model |
| `SchedulerRuns.NextKeeps` | backend/scheduler/RenderScheduler.js:92-457 | every step keeps the invariant |
| `SchedulerRuns.RunIsSafe` | backend/scheduler/RenderScheduler.js:213-236 | in every run at most maxConcurrent tasks run, and a task is in a queue just when it is pending there, exactly once |
| `SchedulerRuns.AtMostThreeStarts` | backend/scheduler/RenderScheduler.js:272-354 | no task is executed more than three times in any run |
| `SchedulerRuns.DependenciesFirst` | backend/scheduler/RenderScheduler.js:262-275 | a task is started only after everything it depends on has returned earlier in the run |
| `SchedulerRuns.ReturnedOnce` | backend/scheduler/RenderScheduler.js:290-303 | a task that has returned neither starts nor returns again |
| `SchedulerRuns.AlwaysProgress` | backend/scheduler/RenderScheduler.js:238-417 | if no task fails three times and there is no cycle, an idle scheduler with a pending task has one that can start, after any cancellations, moves and prunings |
| `SchedulerOrder.StaysAhead` | backend/scheduler/RenderScheduler.js:172-191 | while a task waits in its queue and is not moved, nothing that was not before it gets before it, in any run |
| `SchedulerOrder.FirstComeFirstServed` | backend/scheduler/RenderScheduler.js:238-260 | if a task of the same priority that was not before it is started meanwhile, then the waiting task has a dependency that is not completed |
| `SchedulerOrphans.PendingRemovedIff` | backend/scheduler/RenderScheduler.js:395-407 | in every reachable state pruning removes a pending task if and only if a task it directly depends on has failed for good and is still known |
| `SchedulerOrphans.OrphanReached` | backend/scheduler/RenderScheduler.js:377-417 | a run after which a pending task has outlived the only task it waits for: its dependency was pruned when the task before that failed three times |
| `SchedulerOrphans.OrphansStay` | backend/scheduler/RenderScheduler.js:377-417 | a pending task none of whose dependencies is known stays pending and unstarted in every continuation that does not change its own dependencies or cancel it |
| `SchedulerOrphans.LostNeverStarts` | backend/scheduler/RenderScheduler.js:262-270 | a task that waits for one that is gone is never started until that very dependency is removed, whatever else is cancelled, linked, unlinked or pruned |
| `SchedulerOrphans.HopelessNeverStarts` | backend/scheduler/RenderScheduler.js:262-270 | nor is a task that waits over any number of pending tasks for one that has failed or is gone, until some dependency is removed or some task cancelled |
| `Numerals.NumeralSplit` | backend/did/did_peer.js:6-22 | a numeral is its leading zeros followed by the shortest numeral of its value |
| `Numerals.RebaseBack` | backend/did/did_peer.js:6-46 | changing base while keeping the count of leading zeros is undone by changing back |
| `Base58.HexIsValue` | backend/did/did_peer.js:7 | the number read from the hexadecimal text of bytes is their value; the empty text is no number |
| `Base58.IndexOfLetter` | backend/did/did_peer.js:3 | the alphabet has no letter twice |
| `Base58.AlphabetIs` | backend/did/did_peer.js:3 | the alphabet has exactly the figures and letters other than 0, I, O and l |
| `Base58.AlphabetRises` | backend/did/did_peer.js:3 | in the order of their code points, 58 in all |
| `Base58.EvenHexDigits` | backend/did/did_peer.js:36-37 | the bytes of the padded hexadecimal text are the base-256 digits |
| `Base58.Base58btcEncode` | backend/did/did_peer.js:6-22 | throws if and only if there are no bytes; otherwise the text is valid and decodes to the bytes |
| `Base58.Base58btcDecode` | backend/did/did_peer.js:24-46 | throws if and only if the text is empty or has a foreign letter; otherwise the bytes encode to the text |
| `Base58.DecodeEncode` | backend/did/did_peer.js:6-46 | decoding an encoding gives the bytes, for all non-empty bytes, leading zeros included |
| `Base58.EncodeDecode` | backend/did/did_peer.js:6-46 | encoding a decoding gives the text, for all non-empty valid texts |
| `CarryEncoder.MultiplyAdd` | backend/did/did.service.js:26-37 | the carry loops multiply the digit array by 256 and add the byte |
| `CarryEncoder.MulAddValue` | backend/did/did.service.js:26-37 | that is the number 256 v + b, in digits below 58 |
| `CarryEncoder.Base58btc` | backend/did/did.service.js:10-51 | on non-empty bytes the carry encoder returns what the other encoder returns if and only if some byte is not zero |
| `CarryEncoder.EncodersAgree` | backend/did/did.service.js:10-51 | the two encoders give the same text for non-empty bytes if and only if some byte is not zero |
| `PeerDid.HexThroughBytes` | backend/did/did_peer.js:66 | hexadecimal text of even length, through bytes and back, is the text in lower case |
| `PeerDid.KeyRoundTrip` | backend/did/did_peer.js:48-67 | decoding the multibase form of a 32-byte key gives the key in lower case |
| `PeerDid.KeyIsMulticodec` | backend/did/did_peer.js:4-54 | the multibase form writes z and then, in base 58, the byte 0xec and the bytes of the key |
| `PeerDid.PrefixNeeded` | backend/did/did_peer.js:56-67 | a multibase text decodes if and only if it has 33 bytes and the first is 0xec |
| `PeerDid.TwoSegments` | backend/did/did_peer.js:119-125 | a key segment and a service segment without dots are split and recognised as such |
| `PeerDid.PartsConcat` | backend/did/did_peer.js:119 | the segments are the parts between dots that are not empty, in order |
| `PeerDid.ThirdSegment` | backend/did/did_peer.js:124-129 | a further segment is tolerated if and only if it does not start with E, V, A, I, D or S |
| `PeerDid.CreateDidPeer2` | backend/did/did_peer.js:108-112 | an identifier if and only if the key is 64 hexadecimal digits and the endpoint is not empty; it resolves to the key in lower case and the endpoint |
| `PeerDid.DecodedKeyEncodes` | backend/did/did_peer.js:53-67 | a multibase key that decodes is the encoding of what it decodes to |
| `PeerDid.DecodesIff` | backend/did/did_peer.js:53-67 | the keys that decode are exactly the encodings |
| `PeerDid.ResolveDidPeer2` | backend/did/did_peer.js:114-167 | succeeds if and only if the identifier has the scheme, exactly one key segment, which is the encoding of some key for encryption, and exactly one service segment, which has an endpoint; the key given encodes to that segment, the endpoint is that of the service, and the document has the identifier, its two ids #key-1 and #service, and the endpoint |
| `PeerDid.ResolveCreated` | backend/did/did_peer.js:107-167 | resolving a created identifier gives the key in lower case, the endpoint, and the document about them |

## Left out

- Routes, Supabase, Redis, Kafka, telemetry, logging and the emitted events: input and output.
- Encryption of shares, JSON, base64url and digest internals: parameters of the models.
- Floating-point rounding and overflow: floats are exact rationals or reals, and q is fixed at 3329.
- Sampling of Kyber secrets, errors and the matrix: the draws are inputs of any value.
- `DilithiumSignature` in `backend/pqc/kyber.py` and the other post-quantum modules.
- Security claims such as secrecy or unforgeability, and that different signers have different key images, which rests on the hash: only correctness of honest use.
- ReedSolomonStorage.StoreAndRecover: shards that are present are intact; what decoding makes of others is in the contract of `DecodeFile`, for sizes that are natural numbers.
- SmpcProtocol.SMPCProtocol.SecureAggregate: takes the number of parties below the prime, as with 2^127 - 1 it always is; sessions and stored copies of shares are not modelled.
- Multiplication of shared values, which reconstructs both factors and multiplies.
- RouteFormulation.FormulateRouteOptimization: the graph is given by lists of nodes and edges whose ends are nodes, and the encoding theorem is about graphs without loops and parallel edges.
- RouteExtraction.ReadSelected: an id that contains an underscore is not read back, as in the code.
- Solving the quadratic program: `RouteSolutions.SolvedRoute` takes any satisfying assignment, `OptimumIsShortest` an optimal one.
- RingSignatures.SignedIsAccepted: hash-to-curve is a function onto the curve; that try-and-increment ends is not modelled, and `PublicKeys.LiftOnCurve` covers what it accepts.
- EventStoreProtocol.NextKeeps: getSnapshot is over-approximated by none or any snapshot ever stored, so its cache and its loads are not modelled; takeSnapshot is only called by checkSnapshot, and one aggregate is followed.
- OrderEvents.ApplyIsOverwrite: a payload is a map; that JSON storage drops undefined fields is not modelled.
- RebuildStream.RebuildFromPages: rows are normalised events; rows that are not objects, which are counted and skipped, are not modelled. For rows that are not grouped by aggregate the streaming version writes an aggregate more than once.
- StreamBuffers.StreamBuffer.PushEvent: sequence numbers are integers, and times, expiry and the manager of several streams are not modelled.
- FrameBuffers.FrameBuffer.SetPixel: the frame's own dirty rectangles, its version and diff are not modelled; the renderer does not use them.
- DirtyRenderers.DirtyRenderer.Render: the claim is about glyphs, not colours; every character is printable and one column wide, and statistics on output length are left out.
- RenderSessions.Run: the terminal keeps its size and is large enough for every frame size of the session.
- RenderSchedulers.RenderScheduler.Complete: a component does not call the scheduler back before its first await, and result, error, times and the history of completed tasks are not modelled.
- SchedulerRuns.IsRun: runs have no move of a pending task to a priority that does not exist, after which a task is in no queue; pause, resume and reset are not modelled, and neither is the polling interval.
- PeerDid.ResolveDidPeer2: the document has the fields that vary; its constant context and type names are left out.
- The other modules of the repository: simulated constructions, layout, state channels, analytics, policy building, plugins, machine learning and deployment.
