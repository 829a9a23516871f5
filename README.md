# ElGamal challenge-response authentication, modelled in Dafny

This project models the core of a small C# authentication system built on ElGamal
signatures. It covers five parts:

- **Key generation:** a random probable prime p found with Miller-Rabin, the fixed
  generator g = 2, a private exponent x in [2, p-2] and the public value y = g^x mod p.
- **Signatures:** `Sign` draws an ephemeral k coprime to p-1, sets r = g^k mod p and
  solves k·s ≡ h - x·r (mod p-1). `Verify` checks g^h ≡ y^r·r^s (mod p).
- **Public-key codec:** each of P, G and Y is written as unsigned big-endian bytes in
  Base64, and read back the same way.
- **In-memory user table:** a dictionary from username to `User`. A user's last-login time
  is updated in place.
- **Authentication service:** it registers users, issues challenges (32 random bytes in
  Base64 with an expiry time), trades a signed challenge for a session token, and looks
  up or revokes sessions.

The modules follow the source files:

| module | models |
|---|---|
| `Wrappers` | null results, thrown exceptions and randomised loops (`Option`, `Result`, `Outcome`) |
| `Arith` | BigInteger arithmetic: truncated `%`, ModPow, GCD, plus the number theory the proofs need |
| `Bytes` | the BigInteger ↔ byte-array conversions and the `|=` bit patches |
| `Fermat` | Fermat's little theorem, used by the Miller-Rabin and sign-then-verify proofs |
| `CryptoUtils` | `GenerateRandomInRange`, `ModInverse`, `IsProbablyPrime` |
| `KeyGeneration` | the key records, `GenerateLargePrime`, `FindGenerator`, `GenerateKeyPair` |
| `ElGamalSignature` | `Sign`, `Verify`, `HashToNumber` |
| `Base64` | `Convert.ToBase64String` / `Convert.FromBase64String` (section 4 of RFC 4648) |
| `KeySerialization` | `BigIntToBase64`, `Base64ToBigInt`, `ExportPublicKey`, `ImportPublicKey` |
| `UserStorage` | `User`, `InMemoryUserStorage` |
| `AuthenticationService` | `AuthenticationService` and its request/response records |

Things the program takes from its environment become parameters:

- **Randomness** is one byte stream `rng`. Every method that draws from it returns what is
  left. Each randomised operation is also described by a ghost function of the stream
  (`RandomInRange`, `WitnessRounds`, `MillerRabin`, `PrimeSearch`, `SignAttempts`). The
  method is proved to return exactly what that function gives.
- **Time** is an integer count of DateTime ticks, passed as `now`.
- **GUIDs** (challenge ids and session tokens) are passed in as strings.
- **SHA-256** of a UTF-8 string is a function parameter returning a 32-byte `Digest`.

.NET's truncating `%` and `/` on BigInteger are written out as `Arith.Rem` and
`Arith.Quot`. Exceptions the code can throw become `Err`/`Threw` results.

One behaviour differs from the usual description of this protocol. A challenge is
described as single-use, consumed by any authentication attempt. The code removes it only
when it has expired or the login succeeds. A challenge stays in place after "User not
found" and "Invalid signature", and after a `Verify` that throws. The model follows the
code: `AuthenticationService.Service.Authenticate` states that the challenge table is
unchanged in those cases.

The challenge is also looked up by id alone, so it is not tied to the user it was issued
for. The model keeps this too.

## Model

| member | source | states |
|---|---|---|
| Arith.Rem | auth_elgamal/auth_elgamal/ElGamalSignature.cs:44 | C#'s `%`: the remainder is smaller than the divisor in size, has the sign of the dividend (or is 0), and differs from the dividend by a multiple of the divisor |
| Bytes.SetLowBit | auth_elgamal/auth_elgamal/ElGamalKeyGeneration.cs:51 | `b \| 0x01` is odd and exceeds b by 0 or 1 |
| Bytes.SetHighBit | auth_elgamal/auth_elgamal/ElGamalKeyGeneration.cs:52 | `b \| 0x80` is at least 128 and exceeds b by 0 or 128 |
| Bytes.SignedByteLength | auth_elgamal/auth_elgamal/ElGamalKeyGeneration.cs:118 | `range.ToByteArray().Length` is the least k ≥ 1 whose two's-complement range [-256^k/2, 256^k/2) holds the value |
| Bytes.UnsignedBigEndianBytes | auth_elgamal/auth_elgamal/KeySerialization.cs:12 | `ToByteArray(isUnsigned: true, isBigEndian: true)` is at least one byte, with no leading zero byte unless it is the single byte 0 |
| Bytes.UnsignedBigEndianRoundTrip | auth_elgamal/auth_elgamal/KeySerialization.cs:12-19 | reading the bytes back big-endian gives the number again |
| Bytes.BigEndianIsWeightedSum | auth_elgamal/auth_elgamal/KeySerialization.cs:19 | the big-endian value of b is Σ b[i]·256^(len-1-i) |
| CryptoUtils.RejectionSample | auth_elgamal/auth_elgamal/ElGamalKeyGeneration.cs:122-126 | the draw loop returns a value below `range` and consumes at least one block |
| CryptoUtils.RandomInRange | auth_elgamal/auth_elgamal/ElGamalKeyGeneration.cs:113-129 | a result of GenerateRandomInRange(min, max) lies in [min, max] |
| CryptoUtils.GetBytes | auth_elgamal/auth_elgamal/ElGamalKeyGeneration.cs:124 | fills the whole array with the next bytes of the stream, or fails and changes nothing when too few are left |
| CryptoUtils.GenerateRandomInRange | auth_elgamal/auth_elgamal/ElGamalKeyGeneration.cs:113-129 | the loop over a reused byte array returns a value in [min, max], exactly the one RandomInRange gives, and succeeds exactly when it does |
| CryptoUtils.EmptyRangeNeverReturns | auth_elgamal/auth_elgamal/ElGamalKeyGeneration.cs:122-126 | with range ≤ 0 no draw is ever accepted |
| CryptoUtils.NoValueInEmptyRange | auth_elgamal/auth_elgamal/ElGamalKeyGeneration.cs:113-129 | GenerateRandomInRange(min, max) with max < min never returns |
| CryptoUtils.ModInverse | auth_elgamal/auth_elgamal/ElGamalKeyGeneration.cs:131-153 | m = 1 gives 0. For 1 ≤ a < m coprime to m, the result r satisfies 0 < r < m and a·r ≡ 1 (mod m); the loop never divides by zero |
| CryptoUtils.CoefficientsStep | auth_elgamal/auth_elgamal/ElGamalKeyGeneration.cs:139-147 | one Euclid step keeps the Bézout coefficients of opposite signs, with \|x1\|·m + \|x0\|·a = m0 |
| CryptoUtils.OddPartFactor | auth_elgamal/auth_elgamal/ElGamalKeyGeneration.cs:77-83 | n-1 = d·2^r with d odd, and r ≥ 1 when n-1 is even |
| CryptoUtils.SplitPowerOfTwo | auth_elgamal/auth_elgamal/ElGamalKeyGeneration.cs:77-83 | the halving loop ends with d odd and d·2^r = n-1 |
| CryptoUtils.CheckWitness | auth_elgamal/auth_elgamal/ElGamalKeyGeneration.cs:88-105 | a witness passes iff a^d mod n is 1 or n-1, or one of the next r-1 squarings is n-1 |
| CryptoUtils.WitnessRounds | auth_elgamal/auth_elgamal/ElGamalKeyGeneration.cs:85-110 | the rounds never consume more than the stream holds |
| CryptoUtils.MillerRabin | auth_elgamal/auth_elgamal/ElGamalKeyGeneration.cs:71-111 | the test never consumes more than the stream holds |
| CryptoUtils.IsProbablyPrime | auth_elgamal/auth_elgamal/ElGamalKeyGeneration.cs:71-111 | false for n < 2 and even n > 3, true for 2 and 3, all without drawing; otherwise the verdict of the witness rounds (true iff every drawn witness passes, false at the first that fails) |
| CryptoUtils.WitnessLoop | auth_elgamal/auth_elgamal/ElGamalKeyGeneration.cs:85-110 | the loop over `iterations` witnesses returns what WitnessRounds specifies, stopping at the first failing witness |
| CryptoUtils.WitnessRound | auth_elgamal/auth_elgamal/ElGamalKeyGeneration.cs:87-107 | one round either ends the test with WitnessRounds' verdict or leaves one round fewer on the rest of the stream |
| CryptoUtils.SquaringsArePowers | auth_elgamal/auth_elgamal/ElGamalKeyGeneration.cs:88-96 | the k-th squaring of a^d mod n is a^(d·2^k) mod n |
| CryptoUtils.PrimePasses | auth_elgamal/auth_elgamal/ElGamalKeyGeneration.cs:85-110 | for a prime n ≥ 5, every witness in [2, n-2] passes (Fermat, and the fact that only ±1 square to 1 modulo a prime) |
| CryptoUtils.AcceptsOnlyOdd | auth_elgamal/auth_elgamal/ElGamalKeyGeneration.cs:73-75 | an accepted n is 2, 3 or odd and at least 5 |
| CryptoUtils.PrimeNeverRejected | auth_elgamal/auth_elgamal/ElGamalKeyGeneration.cs:71-111 | a prime is never rejected, whatever witnesses the stream supplies |
| KeyGeneration.Patched | auth_elgamal/auth_elgamal/ElGamalKeyGeneration.cs:51-52 | the patches as written: the first (least significant) byte gets bit 7, the last (most significant) byte gets bit 0, and the bytes in between are unchanged |
| KeyGeneration.Candidate | auth_elgamal/auth_elgamal/ElGamalKeyGeneration.cs:51-54 | the candidate from L bytes with the patches as written lies in [256^(L-1), 256^L), and its low byte is at least 128, so it is at least 128 |
| KeyGeneration.PatchedCandidateMayBeEvenAndShort | auth_elgamal/auth_elgamal/ElGamalKeyGeneration.cs:51-54 | as written, the bytes [0, 0] give the candidate 384: even, and below 2^15 |
| KeyGeneration.IntendedPatched | auth_elgamal/auth_elgamal/ElGamalKeyGeneration.cs:51-52 | the intended patches: the least significant byte becomes odd and the most significant byte is at least 128; the bytes in between are unchanged |
| KeyGeneration.IntendedCandidateBounds | auth_elgamal/auth_elgamal/ElGamalKeyGeneration.cs:43-54 | with the intended patches, every candidate of L bytes is odd and lies in [128·256^(L-1), 256^L), i.e. has exactly 8L bits |
| KeyGeneration.PrimeSearch | auth_elgamal/auth_elgamal/ElGamalKeyGeneration.cs:47-57 | each accepted search consumes part of the stream |
| KeyGeneration.SearchResultBounds | auth_elgamal/auth_elgamal/ElGamalKeyGeneration.cs:43-57 | the prime found lies in [256^(L-1), 256^L) and its low byte is at least 128; since the test accepted it and it is at least 128, it is odd |
| KeyGeneration.SearchResultPassed | auth_elgamal/auth_elgamal/ElGamalKeyGeneration.cs:57 | the prime found passed IsProbablyPrime(p, 20) |
| KeyGeneration.PrimeCandidateTaken | auth_elgamal/auth_elgamal/ElGamalKeyGeneration.cs:47-57 | a prime candidate is never skipped: the search stops at it |
| KeyGeneration.PatchInPlace | auth_elgamal/auth_elgamal/ElGamalKeyGeneration.cs:51-52 | patches the array in place, last byte first and then the first byte, to Patched of its old contents |
| KeyGeneration.GenerateLargePrime | auth_elgamal/auth_elgamal/ElGamalKeyGeneration.cs:40-61 | bitLength ≤ -8 throws OverflowException; -8 < bitLength < 8 throws IndexOutOfRangeException; otherwise it returns PrimeSearch's result (or runs out of randomness), an odd number in [256^(L-1), 256^L) whose low byte is at least 128, with L = bitLength/8 |
| KeyGeneration.FindGenerator | auth_elgamal/auth_elgamal/ElGamalKeyGeneration.cs:63-66 | the generator is always 2 |
| KeyGeneration.GenerateKeyPair | auth_elgamal/auth_elgamal/ElGamalKeyGeneration.cs:20-38 | bitLength < 8 throws. Otherwise p is the prime found, g = 2, 2 ≤ x ≤ p-2, and y = g^x mod p with 0 ≤ y < p |
| ElGamalSignature.HashToNumber | auth_elgamal/auth_elgamal/ElGamalSignature.cs:72-76 | the digest read as an unsigned number lies in [0, 2^256) |
| ElGamalSignature.Inverse | auth_elgamal/auth_elgamal/ElGamalSignature.cs:42 | the inverse of k modulo p-1 lies in (0, p-1) and k·kInv ≡ 1 |
| ElGamalSignature.InverseUnique | auth_elgamal/auth_elgamal/ElGamalSignature.cs:42 | that inverse is unique, so ModInverse's result is the one |
| ElGamalSignature.DrawCoprime | auth_elgamal/auth_elgamal/ElGamalSignature.cs:36-39 | the k the inner loop settles on lies in [2, p-2] and is coprime to p-1 |
| ElGamalSignature.SValue | auth_elgamal/auth_elgamal/ElGamalSignature.cs:44-45 | s lies in [0, p-1) and s ≡ (h - x·r)·kInv (mod p-1) |
| ElGamalSignature.SignAttempts | auth_elgamal/auth_elgamal/ElGamalSignature.cs:34-46 | each signing attempt consumes part of the stream |
| ElGamalSignature.Sign | auth_elgamal/auth_elgamal/ElGamalSignature.cs:24-49 | the nested retry loops return exactly the signature SignAttempts specifies, and succeed exactly when it does |
| ElGamalSignature.DrawStep | auth_elgamal/auth_elgamal/ElGamalSignature.cs:36-39 | a coprime draw ends the inner loop; any other draw leaves the outcome to the rest of the stream |
| ElGamalSignature.AttemptStep | auth_elgamal/auth_elgamal/ElGamalSignature.cs:34-46 | an attempt with s = 0 starts over; any other s is the result |
| ElGamalSignature.SignedWithNonce | auth_elgamal/auth_elgamal/ElGamalSignature.cs:34-48 | every signature comes with its k: 2 ≤ k ≤ p-2, gcd(k, p-1) = 1, r = g^k mod p (so 0 ≤ r < p when g ≥ 0), 0 < s < p-1, and k·s ≡ h - x·r (mod p-1) |
| ElGamalSignature.AcceptedAttempt | auth_elgamal/auth_elgamal/ElGamalSignature.cs:41-46 | the same facts for a single attempt whose s is not zero |
| ElGamalSignature.Verify | auth_elgamal/auth_elgamal/ElGamalSignature.cs:54-71 | r ≤ 0 or r ≥ p gives false; otherwise a negative s throws ArgumentOutOfRangeException. Otherwise, for g, y ≥ 0, the result is true iff g^h ≡ y^r·r^s (mod p) |
| ElGamalSignature.VerificationEquation | auth_elgamal/auth_elgamal/ElGamalSignature.cs:67-70 | with non-negative bases, comparing the truncated ModPow remainders is comparing g^h and y^r·r^s modulo p |
| ElGamalSignature.SignThenVerify | auth_elgamal/auth_elgamal/ElGamalSignature.cs:24-71 | for a key pair GenerateKeyPair could produce, with p prime and not dividing g, Verify accepts what Sign returns |
| ElGamalSignature.SignatureEquation | auth_elgamal/auth_elgamal/ElGamalSignature.cs:65-70 | y = g^x, r = g^k and k·s ≡ h - x·r (mod p-1) give y^r·r^s ≡ g^h (mod p) |
| Base64.CharValue | auth_elgamal/auth_elgamal/KeySerialization.cs:18 | an alphabet character has a value below 64 |
| Base64.EncodeChar | auth_elgamal/auth_elgamal/KeySerialization.cs:13 | the character written for a 6-bit value decodes back to that value |
| Base64.CharValueInverse | auth_elgamal/auth_elgamal/KeySerialization.cs:13-18 | every alphabet character is the encoding of its own value |
| Base64.Encode | auth_elgamal/auth_elgamal/KeySerialization.cs:13 | the encoding has a multiple of four characters |
| Base64.EncodeLength | auth_elgamal/auth_elgamal/KeySerialization.cs:13 | the encoding has 4·⌈n/3⌉ characters |
| Base64.EncodeAlphabet | auth_elgamal/auth_elgamal/KeySerialization.cs:13 | the encoding holds only alphabet characters and '=', so no white space |
| Base64.StripWhiteSpace | auth_elgamal/auth_elgamal/KeySerialization.cs:18 | what is left has no space, tab or line break and is no longer than the input |
| Base64.StripNothing | auth_elgamal/auth_elgamal/KeySerialization.cs:18 | text without white space is left as it is |
| Base64.DecodeGroup | auth_elgamal/auth_elgamal/KeySerialization.cs:18 | a group gives 1 to 3 bytes, and fewer than 3 only in the last group |
| Base64.DecodeGroups | auth_elgamal/auth_elgamal/KeySerialization.cs:18 | n groups give between 3n-2 and 3n bytes; the only error is FormatException |
| Base64.Decode | auth_elgamal/auth_elgamal/KeySerialization.cs:18 | a stripped length that is not a multiple of 4 is a FormatException; every error is a FormatException; the length bounds hold |
| Base64.DecodeEncode | auth_elgamal/auth_elgamal/KeySerialization.cs:13-18 | decoding the encoding of any byte string gives the byte string back |
| KeySerialization.BigIntToBase64 | auth_elgamal/auth_elgamal/KeySerialization.cs:9-14 | fails iff n < 0, with ArgumentOutOfRangeException; otherwise a non-empty multiple of four characters |
| KeySerialization.Base64ToBigInt | auth_elgamal/auth_elgamal/KeySerialization.cs:16-20 | succeeds iff the text is Base64, else FormatException; the value is Σ b[i]·256^(len-1-i) over the decoded bytes |
| KeySerialization.BigIntRoundTrip | auth_elgamal/auth_elgamal/KeySerialization.cs:9-20 | Base64ToBigInt(BigIntToBase64(n)) = n for every n ≥ 0 |
| KeySerialization.ExportPublicKey | auth_elgamal/auth_elgamal/KeySerialization.cs:22-29 | succeeds iff P, G and Y are all non-negative; otherwise ArgumentOutOfRangeException |
| KeySerialization.ImportPublicKey | auth_elgamal/auth_elgamal/KeySerialization.cs:31-38 | succeeds iff all three fields are Base64, else FormatException; the components are non-negative |
| KeySerialization.KeyRoundTrip | auth_elgamal/auth_elgamal/KeySerialization.cs:22-38 | importing an exported key gives the key back |
| KeySerialization.ExportFieldwise | auth_elgamal/auth_elgamal/KeySerialization.cs:24-37 | two keys agree on a component iff their exports agree on the matching field |
| UserStorage.User.constructor | auth_elgamal/auth_elgamal/Models/User.cs:15-20 | stores the username and key, the Base64 SHA-256 of the password, the creation time, and no last login |
| UserStorage.InMemoryUserStorage.constructor | auth_elgamal/auth_elgamal/Storage/InMemoryUserStorage.cs:7 | the table starts empty |
| UserStorage.InMemoryUserStorage.AddUser | auth_elgamal/auth_elgamal/Storage/InMemoryUserStorage.cs:10-18 | true iff the username was absent, in which case the user is stored under it; otherwise the table is unchanged |
| UserStorage.InMemoryUserStorage.GetUser | auth_elgamal/auth_elgamal/Storage/InMemoryUserStorage.cs:20-27 | the stored user, or null iff the name is not a key |
| UserStorage.InMemoryUserStorage.UserExists | auth_elgamal/auth_elgamal/Storage/InMemoryUserStorage.cs:29-35 | true iff the name is a key |
| UserStorage.InMemoryUserStorage.GetAllUsers | auth_elgamal/auth_elgamal/Storage/InMemoryUserStorage.cs:37-43 | exactly the stored users, as many as there are names |
| UserStorage.ValuesOnePerKey | auth_elgamal/auth_elgamal/Storage/InMemoryUserStorage.cs:41 | a table where each user sits under its own name has as many distinct users as names |
| UserStorage.InMemoryUserStorage.UpdateLastLogin | auth_elgamal/auth_elgamal/Storage/InMemoryUserStorage.cs:45-54 | the named user's last login becomes `now`; no other user changes and no key is added or removed |
| AuthenticationService.Failure | auth_elgamal/auth_elgamal/Models/AuthModels.cs:13 | a failed response carries no session token |
| AuthenticationService.ChallengeMessage | auth_elgamal/auth_elgamal/Services/AuthenticationService.cs:59-64 | 32 random bytes become a 44-character message that decodes back to those bytes |
| AuthenticationService.Service.constructor | auth_elgamal/auth_elgamal/Services/AuthenticationService.cs:16-20 | missing settings default to a five-minute challenge lifetime; both tables start empty |
| AuthenticationService.Service.Register | auth_elgamal/auth_elgamal/Services/AuthenticationService.cs:22-38 | a blank username, then a blank password, then an existing name are refused with their messages and nothing stored; otherwise the new user is added and the call succeeds |
| AuthenticationService.Service.GenerateChallenge | auth_elgamal/auth_elgamal/Services/AuthenticationService.cs:40-58 | null iff the user is unknown, with nothing stored. Otherwise the challenge is stored under its id, with a message that decodes to the random bytes and expiry now + (ttl or the configured lifetime); sessions are untouched |
| AuthenticationService.Service.Authenticate | auth_elgamal/auth_elgamal/Services/AuthenticationService.cs:65-108 | each step's outcome in order: blank username, unknown challenge, expired challenge (removed), unknown user, then Verify's error, false or true. Only success removes the challenge, opens the session and stamps that user's login. No other user changes, and the challenge stays on every other failure |
| AuthenticationService.Service.IsValidSession | auth_elgamal/auth_elgamal/Services/AuthenticationService.cs:110-116 | true iff the token is open |
| AuthenticationService.Service.GetUsernameFromSession | auth_elgamal/auth_elgamal/Services/AuthenticationService.cs:118-124 | the session's user, or null iff the token is not open |
| AuthenticationService.Service.RevokeSession | auth_elgamal/auth_elgamal/Services/AuthenticationService.cs:126-132 | true iff the token was open; afterwards it is closed, and nothing else changes |

## Left out

- Locks: every `lock (_lock)` block, and every operation of the storage and the service, is one sequential step. The race between `UserExists` and `AddUser` in `Register` is not modelled, so "Registration failed" can only come from that race.
- Unbounded retry loops: the loops in `GenerateRandomInRange`, `GenerateLargePrime` and `Sign` stop with `None`/`Exhausted` when the injected stream runs out. A loop the source never leaves (an empty range, a modulus below 4 in `Sign`) is modelled as running out of randomness.
- Probabilistic and security claims: the 4^-rounds error bound of Miller-Rabin, discrete-log hardness and the entropy of ids and messages cannot be stated over a fixed stream.
- SHA-256 and UTF-8 encoding are one function parameter (`string -> Digest`). The string overloads of `Sign` and `Verify` are not modelled separately; the service passes that function's result to `Verify`.
- `User.VerifyPassword`, the JSON helpers (`PublicKeyToJson`, `PublicKeyFromJson`), the `ToString` overrides, console output, `Program.cs` and the client driver are not part of this model.
- The `IUserStorage` interface is not modelled: the service holds an `InMemoryUserStorage` directly. The `ErrorCodes` enums are not modelled either; the code never uses them, and outcomes carry their message strings.
- `DateTime.Add` overflow and null strings are not modelled: times are unbounded integers and strings are never null.
- CryptoUtils.ModInverse: requires m = 1, or 1 ≤ a < m coprime to m, which is how `Sign` calls it. Other inputs are not modelled: for a > 1 with gcd(a, m) > 1 the source divides by zero; for a ≤ 1 it returns 1.
- ElGamalSignature.Verify: the verification equation is stated for non-negative g and y only. For negative bases the result is still computed with C#'s truncated remainder, but nothing further is proved about it.
- ElGamalSignature.SignThenVerify: requires p prime, g ≥ 0 and p not dividing g. Key generation only guarantees a probable prime.
- Base64.Decode: follows .NET's reader as described in the module: it skips spaces, tabs and line breaks, and ignores the unused low bits of a padded group. Other .NET leniencies, if any, are not modelled.

## Findings

| source | as written | input that shows it | evidently intended | confidence | as-written member | corrected member |
|---|---|---|---|---|---|---|
| auth_elgamal/auth_elgamal/ElGamalKeyGeneration.cs:51-54 | `bytes[^1] \|= 0x01` and `bytes[0] \|= 0x80`, but the bytes are read least significant first, so bit 0 is set on the most significant byte and bit 7 on the least significant one | bitLength 16 with random bytes [0, 0] gives the candidate 384: even, and 9 bits instead of 16 | the candidate is odd and has exactly bitLength bits (bit 0 of the least significant byte, bit 7 of the most significant byte) | medium, not executed | KeyGeneration.PatchedCandidateMayBeEvenAndShort | KeyGeneration.IntendedCandidateBounds |

The primality test rejects the even candidates, so the code still returns odd primes. But
p can fall up to 7 bits short of the requested size. Key generation in this model
follows the code: `KeyGeneration.Candidate`, `KeyGeneration.PatchInPlace` and
`KeyGeneration.GenerateLargePrime` use the as-written patches (`KeyGeneration.Patched`),
and their contracts state only what those patches guarantee. The corrected patches are
`KeyGeneration.IntendedPatched`, with the exact bit length and oddness proved in
`KeyGeneration.IntendedCandidateBounds`.
