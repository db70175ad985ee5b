# Verification of the SDK's arithmetic, JSON, cipher-mode, connection and logging cores

This project models five cores of the repository in Dafny and proves what they are for.

**Multi-precision integers** (`Arithmetic`, `Limbs`, `MpiCore`, `MpiArith`, `IntDiv`, `MpiDiv`, `Montgomery`,
`ExpMod`, `MpiGcd`, `PowerDivides`). An `Mpi` has a sign and a limb buffer that the methods change in place, as in
`mbedtls_mpi`. The limb base is `2^biL` with `biL = 8 * 2^LIMB_LOG` for an arbitrary natural `LIMB_LOG`, so
nothing depends on 64-bit limbs. Carry and borrow loops, Knuth's division with its quotient-digit estimate,
Montgomery multiplication, sliding-window exponentiation, binary gcd and the modular inverse are proved to
compute the mathematical function, for every sign and for the aliasing the code supports.

**JSON** (`Json`, `JsonParse`, `JsonParseBuffer`, `JsonRoundTrip`, `JsonGrammar`, `JsonSound`, `JsonPrint`,
`JsonLayout`, `JsonTree`, `JsonMeaning`, `JsonCompare`, `JsonKeys`, `JsonPointer`, `JsonEdit`, `JsonPatch`,
`JsonPatchCode`, `JsonPatchKeys`, `JsonPatchRfc`, `JsonPatchDiffs`, `JsonMerge`, `JsonMergeExact`, `JsonMergeKeys`,
`JsonList`, `JsonHeap`, `JsonSort`, `JsonDuplicate`, `JsonMergeItems`). The recursive-descent parser on its moving
offset, which leaves trees of linked items; the printer on its growing buffer; JSON Pointer, JSON Patch, JSON Merge
Patch, the doubly linked child lists with "head's prev is the tail", the in-place mergesort and the deep copy. The
central theorems are: parsing undoes printing; every text of the RFC 8259 grammar with integer numbers is accepted
with its value, and exactly the texts of a slightly wider grammar are; printed text has a fixed layout; following
the pointer built for a node finds that node; applying a patch document is the function of RFC 6902, for all six
operations; applying the patch generated between two trees yields the target, and each generated operation is about
a difference; merging a generated merge patch yields the target exactly when a merge patch can express it; merging
is the function of RFC 7396. A tree's `Meaning` reads objects as maps, so "equal up to member order" is equality of
meanings for trees with distinct sibling keys.

Three conditions on keys recur. `Told(ms, cs)`: the keys of one object are distinct and the comparison in mode
`cs` tells them apart; with regard to case this is just distinctness (`JsonTree.ToldExactly`). `Clear(v, cs)`: so
in every object of a tree. `Apart(a, b, cs)`: where objects of two trees meet, a key of one that compares equal
to a key of the other is that key; with regard to case this always holds (`JsonCompare.ApartExactly`).

**Cipher modes** (`Blocks`, `Xts`, `Ccm`, `CcmFormat`) over an arbitrary block function: XTS with ciphertext stealing
and CCM with its counter and CBC-MAC, on byte arrays. What they compute is also stated byte by byte, with the
tweaks, the counter blocks and the layout of the authenticated string written out.

**SDK client** (`Client`, `ClientAnswers`): connect, reconnect with back-off, subscriptions and the two failed-publish slots, one
API call per step, with the answers of network and clock as parameters; theorems over all runs.

**Rolling log** (`ZLog`): a directory as a map from rolling number to records, rotation by renames; theorems over
all runs of writes and frees.

The imperative classes and methods are proved against specification functions, and the lemmas are about those
functions. `dafny verify dfyconfig.toml` checks the whole project.

Some results differ from what one would expect, and are stated as such:

- `mbedtls_mpi_exp_mod` returns N instead of 0 when A is negative, E is odd and A has every prime factor of N with
  sufficient power; in all other cases it returns the residue (`PowerDivides.ExpModBoundary`,
  `ExpMod.ExpModReturnsModulus`).
- `mbedtls_mpi_gcd` returns the gcd exactly when B is not 0 or A is 0 (`MpiGcd.GcdMpi`).
- `mbedtls_mpi_div_mpi` may store the quotient over A or B exactly when that operand is positive, the quotient is 0,
  or both are the same number; over A the remainder can be lost too (`MpiDiv.QuotientLeftExact`,
  `MpiDiv.RemainderLeftExact`).
- XTS in place is right for all data units of a length exactly when the length is a multiple of 16
  (`Xts.InPlaceExact`); otherwise the leftover bytes are lost (`Xts.AliasedLosesBytes`), unless they happen to
  equal the bytes they are replaced by (`Xts.AliasedExact`).
- `cJSON_PrintPreallocated` succeeds exactly when the buffer is two bytes longer than the text
  (`JsonPrint.PrintPreallocated`); the header's advice of five spare bytes is more than enough.
- `decode_pointer_inplace` never moves characters, so it restores an encoded key exactly when the condition
  `Decodable` holds (`JsonPointer.DecodeExact`, and by the key's own characters `JsonPointer.DecodableClosed`); a
  key with a slash is never restored, and with such a key a generated removal fails (`JsonPatchCode.OnlyMember`).
- Detaching a member ignores case even in the case-sensitive patch functions. Removing a member works exactly
  when its key is decodable and no earlier sibling has the same key up to case (`JsonPatch.RemoveExact`); otherwise
  the wrong one goes (`JsonPatchCode.WrongMemberRemoved`). Patches can be relied on for exactly those sets of keys
  that are decodable and differ ignoring case (`JsonPatchKeys.PatchKeysExact`). A move takes the wrong value along
  in the same way (`JsonPatchRfc.WrongMemberMoved`).
- A move or copy to the root is refused, where RFC 6902 replaces the document (`JsonPatchRfc.RootRefused`), and a
  move that finds no place for its value has taken it out all the same (`JsonPatchRfc.MoveIsRfc`).
- The parser takes any character up to the space for white space, also a NUL in front of the terminator, and lets an
  ill-formed `\u` sequence pass as U+0000; what else it accepts beyond RFC 8259 is in `JsonSound`.
- A generated merge patch yields the target exactly when every member of the target is one of the source as well
  or can be reached without a null (`JsonMerge.GenerateThenMerge`, `JsonMerge.NullIsLost`).
- `generate_merge_patch` sorts nested objects ignoring case but walks along them with `strcmp`. For every two keys
  on which the two orders differ a member is lost (`JsonMergeKeys.OrderLost`), and merge patches can be relied on
  for exactly those sets of keys on which the orders agree (`JsonMergeKeys.KeysExact`). For any two given trees,
  `JsonMergeExact.GenerateThenMergeExact` says exactly when the round trip works.
- An append after a sort, such as an addition after a test, works exactly when the sort has left the first and the
  last item in their places (`JsonSort.AddAfterSort`); otherwise the new item or some of the old ones are lost
  (`JsonList.AddItemToArray`).
- A handler registered before a direct `zclient_connect` stays unsubscribed while connected, and this is the only
  way in which that happens (`Client.RunSubscribedExact`, `Client.ConnectExact`, `Client.UndisciplinedRun`).
- The back-off doubles before it is capped and so reaches 2048 on the way to 1800 (`Client.BackoffValues`).
- A file outgrows the log's limit by more than one record exactly when a write reopens a freed log on a file that
  is over the limit already (`ZLog.RunBoundedExact`); every limit can be broken so (`ZLog.FreeBreaksBound`).

## Model

| member | source | states |
|---|---|---|
| MpiCore.Mpi.constructor | lib/mbedtls/library/bignum.c:89-96 | a fresh number is 0 with an empty buffer |
| MpiCore.Grow | lib/mbedtls/library/bignum.c:120-146 | the buffer gets at least the asked length, new limbs are 0, the value stays |
| MpiCore.Copy | lib/mbedtls/library/bignum.c:191-228 | the value is copied; copying an unallocated number frees the target |
| MpiCore.Lset | lib/mbedtls/library/bignum.c:315-329 | the number becomes z |
| MpiCore.Clz | lib/mbedtls/library/bignum.c:396-409 | exact number of leading zero bits of a limb |
| MpiCore.Bitlen | lib/mbedtls/library/bignum.c:414-429 | exact bit length of the magnitude |
| MpiCore.Lsb | lib/mbedtls/library/bignum.c:379-390 | index of the lowest set bit, 0 for zero |
| MpiCore.ShiftL | lib/mbedtls/library/bignum.c:915-961 | the magnitude is multiplied by 2^count and the buffer grows only as needed |
| MpiCore.ShiftR | lib/mbedtls/library/bignum.c:966-1005 | the magnitude is divided by 2^count, rounding down |
| MpiCore.CmpAbs | lib/mbedtls/library/bignum.c:1010-1037 | sign of the difference of the magnitudes |
| MpiCore.CmpMpi | lib/mbedtls/library/bignum.c:1042-1072 | sign of the difference of the values |
| MpiCore.CmpInt | lib/mbedtls/library/bignum.c:1077-1089 | sign of the difference to an integer |
| MpiArith.AddAbs | lib/mbedtls/library/bignum.c:1094-1148 | sum of the magnitudes, for every aliasing of the three numbers |
| MpiArith.SubHlp | lib/mbedtls/library/bignum.c:1153-1169 | subtracting limbs with borrow subtracts their value, borrow propagated to the end |
| MpiArith.SubAbs | lib/mbedtls/library/bignum.c:1174-1215 | difference of the magnitudes, or NEGATIVE_VALUE exactly when it would be negative; any aliasing |
| MpiArith.AddMpi | lib/mbedtls/library/bignum.c:1220-1250 | signed sum, any aliasing |
| MpiArith.SubMpi | lib/mbedtls/library/bignum.c:1255-1285 | signed difference, any aliasing |
| MpiArith.MulHlp | lib/mbedtls/library/bignum.c:1334-1393 | adds s * b at a limb offset, carry propagated, limbs below untouched |
| MpiArith.MulMpi | lib/mbedtls/library/bignum.c:1398-1433 | signed product, any aliasing |
| MpiArith.MulInt | lib/mbedtls/library/bignum.c:1438-1451 | product with one limb |
| IntDiv.HalfDigit | lib/mbedtls/library/bignum.c:1514-1538 | a half-word quotient digit after at most two corrections is exact |
| IntDiv.IntDivInt | lib/mbedtls/library/bignum.c:1457-1547 | u1 * base + u0 = q * d + r with r < d, or the overflow answer when d <= u1 |
| MpiDiv.TruncDivisionUnique | lib/mbedtls/library/bignum.c:1552-1665 | the results of div_mpi are characterised: A = Q * B + R, abs(R) < abs(B), and R is 0 or has the sign of A, exactly for these Q and R |
| MpiDiv.EstimateBounds | lib/mbedtls/library/bignum.c:1613-1628 | a digit guess that passes the three-limb test is the true digit or one more, normalized or not |
| MpiDiv.EstimateDigit | lib/mbedtls/library/bignum.c:1605-1628 | the correction loop ends with a guess that is at most one too big |
| MpiDiv.SubtractRow | lib/mbedtls/library/bignum.c:1630-1641 | one add-back suffices: the remainder lies in [0, Y * base^k) |
| MpiDiv.FirstDigit | lib/mbedtls/library/bignum.c:1594-1601 | the first loop leaves a dividend below the shifted divisor and counts its subtractions |
| MpiDiv.DivRows | lib/mbedtls/library/bignum.c:1603-1642 | every row keeps quotient * divisor + rest = dividend; at the end the rest is below the divisor |
| MpiDiv.DivMpi | lib/mbedtls/library/bignum.c:1552-1665 | truncated quotient and remainder for every A and every B, division by zero reported; any of the numbers may be the same, and what is then left is said exactly |
| MpiDiv.QuotientLeftExact | lib/mbedtls/library/bignum.c:1643-1647 | a quotient stored over an operand is right if and only if that operand is positive, the quotient is 0, or both operands are that number |
| MpiDiv.RemainderLeftExact | lib/mbedtls/library/bignum.c:1649-1657 | with the quotient stored over A the remainder is right if and only if it is 0, or A is not below B in magnitude and both have the same sign |
| MpiDiv.StoreQuotient | lib/mbedtls/library/bignum.c:1643-1647 | the signs are read after the copy |
| MpiDiv.ModMpi | lib/mbedtls/library/bignum.c:1689-1710 | the residue in [0, B), and the two error codes |
| Montgomery.NewtonStep | lib/mbedtls/library/bignum.c:1782-1783 | each Newton step doubles the number of correct bits |
| Montgomery.MontgInit | lib/mbedtls/library/bignum.c:1774-1786 | for every odd low limb m0 the result satisfies m0 * mm = -1 mod the base |
| Montgomery.RoundInvariant | lib/mbedtls/library/bignum.c:1806-1818 | one Montgomery round keeps T below N + B and T * R congruent to the part of A read so far times B |
| Montgomery.MontRound | lib/mbedtls/library/bignum.c:1806-1818 | the in-buffer round does the same on the sliding window of T |
| Montgomery.FinalReduce | lib/mbedtls/library/bignum.c:1820-1828 | one conditional subtraction, real or dummy, brings the result below N |
| Montgomery.MontMul | lib/mbedtls/library/bignum.c:1791-1829 | result below N and congruent to A * B * R^-1; a T that is too short is refused |
| Montgomery.MontRed | lib/mbedtls/library/bignum.c:1834-1844 | result below N and congruent to A * R^-1 |
| ExpMod.RCancels | lib/mbedtls/library/bignum.c:1791-1829 | R is invertible modulo an odd N: Montgomery forms determine residues |
| ExpMod.MontProduct | lib/mbedtls/library/bignum.c:1791-1829 | a Montgomery product of forms of u and v is the form of u * v |
| ExpMod.RSquared | lib/mbedtls/library/bignum.c:1906-1919 | the cached R^2 mod N is computed once and reused |
| ExpMod.FillTable | lib/mbedtls/library/bignum.c:1950-1959 | table entries hold consecutive powers of A from the first window power on |
| ExpMod.BuildWindow | lib/mbedtls/library/bignum.c:1937-1960 | the window table holds the powers of A with the top window bit set |
| ExpMod.ScanBit | lib/mbedtls/library/bignum.c:1999-2005 | reading a bit extends the window value exactly |
| ExpMod.ScanStep | lib/mbedtls/library/bignum.c:1984-2023 | X stays the Montgomery form of A to the exponent prefix read so far |
| ExpMod.ScanExponent | lib/mbedtls/library/bignum.c:1962-2024 | the whole scan, limb by limb and bit by bit |
| ExpMod.FinishBits | lib/mbedtls/library/bignum.c:2026-2037 | the leftover bits complete the exponent |
| ExpMod.ExpModMpi | lib/mbedtls/library/bignum.c:1849-2061 | A^E mod N for odd positive N, with the error codes, aliasing and the R^2 cache |
| ExpMod.ExpModReturnsModulus | lib/mbedtls/library/bignum.c:2044-2048 | (-3)^1 mod 3 comes out as 3 |
| PowerDivides.DividesPowerExact | lib/mbedtls/library/bignum.c:2044-2048 | N divides A^E if and only if A has every prime power of N with sufficient power |
| PowerDivides.ExpModBoundary | lib/mbedtls/library/bignum.c:2039-2048 | the result is the residue if and only if A is not negative, E is even, or A lacks a prime factor of N in sufficient power |
| PowerDivides.ExpModCoprime | lib/mbedtls/library/bignum.c:2039-2048 | so always when A and N > 1 have no common factor |
| MpiGcd.GcdGreatest | lib/mbedtls/library/bignum.c:2066-2117 | the reference gcd is the greatest common divisor |
| MpiGcd.GcdScale | lib/mbedtls/library/bignum.c:2081-2088 | common factors can be taken out of the gcd |
| MpiGcd.BinaryStep | lib/mbedtls/library/bignum.c:2092-2107 | a round of the binary gcd keeps the gcd and decreases the sum |
| MpiGcd.BinaryLoop | lib/mbedtls/library/bignum.c:2092-2107 | the loop ends with the gcd, up to the common power of two |
| MpiGcd.GcdMpi | lib/mbedtls/library/bignum.c:2066-2117 | what the code returns for every A and B, and that this is the gcd if and only if B is not 0 or A is 0 |
| MpiGcd.BinaryGcdOfZero | lib/mbedtls/library/bignum.c:2092-2107 | gcd(4, 0) is returned as 0 |
| MpiGcd.HalveRow | lib/mbedtls/library/bignum.c:2198-2205 | halving keeps the linear combination after the parity correction |
| MpiGcd.HalveWhileEven | lib/mbedtls/library/bignum.c:2194-2220 | the halving loops keep c1 * TA + c2 * TB = T and the gcd |
| MpiGcd.SubtractInto | lib/mbedtls/library/bignum.c:2222-2233 | the difference of two rows is a row |
| MpiGcd.InverseStep | lib/mbedtls/library/bignum.c:2192-2235 | a round keeps both rows and the gcd 1, and decreases TU + TV |
| MpiGcd.InverseLoop | lib/mbedtls/library/bignum.c:2182-2235 | the loop ends with V1 * TA + v2 * TB = 1 |
| MpiGcd.IntoRange | lib/mbedtls/library/bignum.c:2237-2241 | the inverse is moved into [0, N) |
| MpiGcd.InvMod | lib/mbedtls/library/bignum.c:2159-2252 | X in [1, N) with A * X mod N = 1 exactly when gcd(A, N) = 1, otherwise NOT_ACCEPTABLE; any aliasing |
| Xts.MulXBytes | lib/mbedtls/library/aes.c:1153-1166 | the tweak doubling moves every bit up one place, through all 16 bytes, with the reduction 0x87 |
| Xts.XtsInverse | lib/mbedtls/library/aes.c:1171-1275 | decrypting an encrypted data unit is the identity for every accepted length and invertible block function, because the last two tweaks are swapped |
| Xts.FullBlocks | lib/mbedtls/library/aes.c:1206-1236 | the block loop does the whole blocks and leaves the pair of tweaks for the rest |
| Xts.Steal | lib/mbedtls/library/aes.c:1238-1272 | the stealing step: last block from the leftover bytes and the tail of the previous block |
| Xts.CryptXts | lib/mbedtls/library/aes.c:1171-1275 | bad lengths are refused and change nothing; otherwise the output is the data unit in the byte form of UnitExact, on disjoint buffers or in place |
| Xts.UnitExact | lib/mbedtls/library/aes.c:1206-1272 | told by bytes: with T_j the first tweak multiplied by x j times, byte i of each whole block in front of the last pair is byte i of the encryption of the block masked with T_j, masked again; the last pair trades bytes under T_m and T_m+1, in this order to encrypt and in the other to decrypt; these bytes are the result and no others are; also in place |
| Xts.AliasedExact | lib/mbedtls/library/aes.c:1253-1257 | in place one data unit is right if and only if its leftover bytes equal the ciphertext bytes that replace them |
| Xts.InPlaceExact | lib/mbedtls/library/aes.c:1253-1257 | in place all data units of a length are right if and only if the length is a multiple of 16 |
| Xts.AliasedLosesBytes | lib/mbedtls/library/aes.c:1253-1257 | in place, two units that differ only in the leftover bytes give the same output |
| Ccm.CounterValue | lib/mbedtls/library/ccm.c:261-264 | counter block k holds k + 1 in its q bytes, prefix unchanged |
| Ccm.CountersDistinct | lib/mbedtls/library/ccm.c:300-306 | for every admissible length the counters of the message are pairwise distinct and differ from the zero counter |
| Ccm.CtrInvolution | lib/mbedtls/library/ccm.c:276-307 | applying the key stream twice gives the data back |
| Ccm.CcmRoundTrip | lib/mbedtls/library/ccm.c:362-398 | authenticated decryption of an encryption result accepts and returns the plaintext |
| Ccm.UpdateMac | lib/mbedtls/library/ccm.c:124-129 | one CBC-MAC step |
| Ccm.CtrCrypt | lib/mbedtls/library/ccm.c:136-147 | one chunk xored with the encrypted counter, in place or not |
| Ccm.Increment | lib/mbedtls/library/ccm.c:304-306 | the q-byte counter is incremented big-endian |
| Ccm.WriteLength | lib/mbedtls/library/ccm.c:206-210 | the message length is written big-endian and refused when it does not fit |
| Ccm.FormatFirst | lib/mbedtls/library/ccm.c:199-210 | the first block has flags, nonce and length |
| Ccm.MacHeader | lib/mbedtls/library/ccm.c:221-249 | two length bytes, the associated data and zeros are absorbed in whole blocks |
| Ccm.CryptMessage | lib/mbedtls/library/ccm.c:272-307 | the message loop: counter mode output and CBC-MAC over the plaintext |
| Ccm.FinishTag | lib/mbedtls/library/ccm.c:312-316 | the tag is the MAC masked with counter zero |
| Ccm.AuthCrypt | lib/mbedtls/library/ccm.c:152-319 | output and tag for every argument, admissible or refused |
| Ccm.StarAuthDecrypt | lib/mbedtls/library/ccm.c:362-398 | accepts exactly when the tag of what was decrypted is the given one, and then leaves the plaintext; otherwise every output byte is 0; every tag length |
| Ccm.OrDiffers | lib/mbedtls/library/ccm.c:387-395 | collecting differences with or and xor decides equality |
| CcmFormat.TagBytes | lib/mbedtls/library/ccm.c:192-316 | the tag is the CBC-MAC of the one string laid out as in section A.2 of NIST SP 800-38C, masked with the encryption of the counter block that holds 0 |
| CcmFormat.FormatExists | lib/mbedtls/library/ccm.c:192-272 | for every admissible input there is a string with flags, nonce, message length, two length bytes and the associated data, the message, and zeros up to whole blocks |
| CcmFormat.FormatUnique | lib/mbedtls/library/ccm.c:192-272 | and only one |
| CcmFormat.FormatTells | lib/mbedtls/library/ccm.c:192-272 | inputs that share their string are the same inputs: nonce, associated data, message and tag length; with a tag no string is the start of another |
| CcmFormat.FlagsAre | lib/mbedtls/library/ccm.c:199-202 | bit 6 of the flags tells that there is associated data, bits 3 to 5 hold (t - 2) / 2 and bits 0 to 2 hold q - 1; a tag length of 0 sets all bits from 3 on |
| CcmFormat.CtrBytes | lib/mbedtls/library/ccm.c:259-307 | byte p of the message is masked with byte p mod 16 of the encrypted counter block that holds p / 16 + 1 |
| JsonRoundTrip.PrintThenParse | lib/cjson/cJSON.c:1104-1181 | parsing the printed text of any tree, formatted or not, gives the tree and consumes the whole text, with and without the terminator |
| JsonGrammar.TextAccepted | lib/cjson/cJSON.c:1104-1181 | every text of the RFC 8259 grammar with int numbers, whatever its white space, escapes and byte order mark, is accepted with its value and end |
| JsonGrammar.DocAccepted | lib/cjson/cJSON.c:1325-1377 | every value of the grammar, wherever it stands in a buffer |
| JsonGrammar.StringAccepted | lib/cjson/cJSON.c:781-908 | every string of the grammar is read as the characters it stands for, up to the first NUL |
| JsonGrammar.DecodePiece | lib/cjson/cJSON.c:829-885 | each escape writes its value and is consumed whole |
| JsonGrammar.ItemsAccepted | lib/cjson/cJSON.c:1489-1526 | element lists with any white space |
| JsonGrammar.MembersAccepted | lib/cjson/cJSON.c:1647-1707 | member lists with any white space |
| JsonSound.TextExact | lib/cjson/cJSON.c:1104-1181 | with the terminator demanded, a buffer is accepted as a value if and only if it is white space, a text of that value nested within the limit, white space and the terminator; a byte order mark is skipped |
| JsonSound.PrefixSound | lib/cjson/cJSON.c:1104-1181 | without it, what was read is white space and a text of the value returned |
| JsonSound.PrefixComplete | lib/cjson/cJSON.c:1104-1181 | and every such text is accepted unless more of a number follows |
| JsonSound.ValueSound | lib/cjson/cJSON.c:1325-1377 | whatever the parser returns, the characters it has read are a text of it |
| JsonSound.ValueComplete | lib/cjson/cJSON.c:1325-1377 | every text of a value is accepted wherever it stands, unless more of a number follows |
| JsonSound.StringExact | lib/cjson/cJSON.c:781-908 | a string is accepted if and only if it ends at the first quote that is not escaped and reads as a sequence of characters, short escapes and \u sequences; its value is what these stand for up to the first NUL |
| JsonSound.NumberSound | lib/cjson/cJSON.c:307-381 | a number is an optional minus sign and digits in int range, at most 63 characters together |
| JsonSound.ItemsSound | lib/cjson/cJSON.c:1489-1526 | an element list is white space, a value, white space, with commas between |
| JsonSound.MemberSound | lib/cjson/cJSON.c:1647-1707 | a member is white space, a string, white space, one colon, white space, a value, white space |
| JsonSound.MembersSound | lib/cjson/cJSON.c:1647-1707 | a member list is members with commas between |
| JsonRoundTrip.ParsePrintParse | lib/cjson/cJSON.c:1104-1181 | whatever was parsed can be printed and parsed again to the same tree |
| JsonRoundTrip.ValueRoundTrip | lib/cjson/cJSON.c:1325-1377 | the same at any place in a buffer, at any depth within the nesting limit |
| JsonRoundTrip.ArrayRoundTrip | lib/cjson/cJSON.c:1454-1549 | arrays, with separators and white space |
| JsonRoundTrip.ObjectRoundTrip | lib/cjson/cJSON.c:1614-1729 | objects, with names, colons, indentation and line ends |
| JsonRoundTrip.StringRoundTrip | lib/cjson/cJSON.c:781-908 | every C string, through all escapes |
| JsonRoundTrip.NumberRoundTrip | lib/cjson/cJSON.c:307-381 | every int |
| JsonRoundTrip.ParsedValueFits | lib/cjson/cJSON.c:1325-1377 | the parser yields C strings, ints in range and nesting within the limit |
| JsonRoundTrip.Utf8Encodes | lib/cjson/cJSON.c:723-770 | UTF-8 output encodes the code point in the shortest form |
| JsonRoundTrip.HexTable | lib/cjson/cJSON.c:623-656 | the hexadecimal digits are the sixteen usual ones, letters in either case, and nothing else |
| JsonRoundTrip.PlainLiteral | lib/cjson/cJSON.c:660-778 | a \u sequence outside the surrogates stands for its code point |
| JsonRoundTrip.SurrogatePair | lib/cjson/cJSON.c:685-716 | a surrogate pair stands for the code point above 0xFFFF |
| JsonRoundTrip.LoneSurrogate | lib/cjson/cJSON.c:679-711 | half a pair is refused |
| JsonParseBuffer.ParseHex4 | lib/cjson/cJSON.c:623-656 | four hexadecimal digits, 0 for anything else |
| JsonParseBuffer.WriteUtf8 | lib/cjson/cJSON.c:755-771 | the backward loop writes exactly the UTF-8 bytes |
| JsonParseBuffer.Utf16LiteralToUtf8 | lib/cjson/cJSON.c:660-778 | bytes written and characters read of one or two \u sequences |
| JsonParseBuffer.RoomLiteral | lib/cjson/cJSON.c:794-825 | a \u sequence never needs more bytes than the size estimate granted for it |
| JsonParseBuffer.ChunkFits | lib/cjson/cJSON.c:794-825 | decoding stays inside the estimated allocation, also when it runs out of step with the first pass |
| JsonParseBuffer.DecodeBody | lib/cjson/cJSON.c:827-885 | the copying loop computes the decoded string inside its array |
| JsonParseBuffer.ParseBuffer.SkipWhitespace | lib/cjson/cJSON.c:1047-1070 | white space is skipped, with one step back at the end of the buffer |
| JsonParseBuffer.ParseBuffer.DoParseNumber | lib/cjson/cJSON.c:307-381 | an integer token of at most 63 characters |
| JsonParseBuffer.ParseBuffer.DoParseString | lib/cjson/cJSON.c:781-908 | accepted exactly when the specification accepts, with the same value and offset |
| JsonParseBuffer.ParseBuffer.DoParseValue | lib/cjson/cJSON.c:1325-1377 | the dispatch equals the specification, depth restored on success; the children are trees of fresh items in a full list |
| JsonParseBuffer.ParseBuffer.DoParseArray | lib/cjson/cJSON.c:1454-1549 | arrays up to the nesting limit; the elements form a full child list whose head's prev is the last one |
| JsonParseBuffer.ParseBuffer.ParseElements | lib/cjson/cJSON.c:1489-1526 | the element loop: each element becomes an item linked both ways behind the one before |
| JsonParseBuffer.ParseBuffer.ParseElement | lib/cjson/cJSON.c:1492-1522 | a value is parsed and attached to the list; the items before it stay linked |
| JsonParseBuffer.AttachParsed | lib/cjson/cJSON.c:1499-1510 | a new item goes behind the current one, or starts the list |
| JsonParseBuffer.ParseBuffer.DoParseObject | lib/cjson/cJSON.c:1614-1729 | objects up to the nesting limit; the members form a full child list whose head's prev is the last one |
| JsonParseBuffer.ParseBuffer.ParseNamed | lib/cjson/cJSON.c:1647-1707 | the member loop: each member becomes an item with its name, linked both ways behind the one before |
| JsonParseBuffer.ParseBuffer.ParseDocument | lib/cjson/cJSON.c:1104-1181 | byte order mark, value and terminator check; the result is a tree of fresh items with full child lists at every level |
| JsonPrint.EscapedLength | lib/cjson/cJSON.c:938-962 | the counting pass predicts the length the copying pass writes |
| JsonPrint.TextIsCString | lib/cjson/cJSON.c:1380-1451 | no text contains NUL, so strlen finds its end |
| JsonPrint.PrintBuffer.Ensure | lib/cjson/cJSON.c:447-530 | room is granted exactly up to the limit, and the text so far survives growth |
| JsonPrint.PrintBuffer.UpdateOffset | lib/cjson/cJSON.c:533-543 | the offset moves to the end of the piece just written |
| JsonPrint.PrintBuffer.PrintNumber | lib/cjson/cJSON.c:553-620 | decimal text of an int |
| JsonPrint.PrintBuffer.PrintStringPtr | lib/cjson/cJSON.c:911-1030 | quoted and escaped text in the reserved space |
| JsonPrint.PrintBuffer.CopyEscaped | lib/cjson/cJSON.c:981-1026 | the copying pass writes the escaped string and nothing beyond it |
| JsonPrint.PrintBuffer.PrintValue | lib/cjson/cJSON.c:1380-1451 | leaves the text of the value, and succeeds exactly when text, terminator and one byte fit |
| JsonPrint.PrintBuffer.PrintArray | lib/cjson/cJSON.c:1552-1611 | the same for arrays |
| JsonPrint.PrintBuffer.PrintObject | lib/cjson/cJSON.c:1732-1843 | the same for objects |
| JsonPrint.Print | lib/cjson/cJSON.c:1196-1261 | the text of the value, whenever it is at most INT_MAX - 2 long |
| JsonPrint.PrintBuffered | lib/cjson/cJSON.c:1274-1303 | the same text for every initial size |
| JsonPrint.PrintPreallocated | lib/cjson/cJSON.c:1305-1322 | the same text, exactly when the caller's buffer has two bytes more than the text |
| JsonLayout.TextLaid | lib/cjson/cJSON.c:1552-1843 | unformatted text has no white space outside its strings; formatted text has one space between elements, a tab behind each colon, each member on a line of its own one tab deeper than the closing brace; characters are escaped only where they must be |
| JsonTree.CompareEqual | lib/cjson/cJSON_Utils.c:83-109 | case-sensitive comparison is 0 exactly for equal keys |
| JsonTree.CompareTrans | lib/cjson/cJSON_Utils.c:83-109 | the comparison is transitive in both case modes |
| JsonTree.CompareFirst | lib/cjson/cJSON_Utils.c:83-109 | a key is less than another if and only if the first difference says so or it is a proper prefix, in both case modes |
| JsonTree.FoldExact | lib/cjson/cJSON_Utils.c:98-108 | ignoring case makes two characters equal if and only if they are the same or the same ASCII letter |
| JsonTree.SortAscends | lib/cjson/cJSON_Utils.c:595-602 | sorting distinct keys gives a strictly ascending permutation |
| JsonCompare.CompareMeans | lib/cjson/cJSON_Utils.c:604-690 | compare_json decides equality up to member order, for trees with distinct sibling keys; without regard to case also for keys that differ ignoring case where they meet |
| JsonCompare.AfterAlike | lib/cjson/cJSON_Utils.c:604-690 | comparing changes nothing in either tree but the order of members |
| JsonCompare.AfterSorted | lib/cjson/cJSON_Utils.c:652-658 | comparing two objects puts the members of both into the order of their keys |
| JsonPointer.CompareEncoded | lib/cjson/cJSON_Utils.c:120-154 | an encoded key is matched by exactly the names that compare equal to the key, in both case modes |
| JsonPointer.IndexRoundTrip | lib/cjson/cJSON_Utils.c:274-299 | a printed array index reads back |
| JsonPointer.IndexTaken | lib/cjson/cJSON_Utils.c:274-299 | which elements are taken for array indices: a digit first, nothing below "0", no leading zero; characters above "9" count as well, the value is reduced to a size_t, and an empty element is 0 |
| JsonPointer.FollowFound | lib/cjson/cJSON_Utils.c:198-346 | following the pointer built for a node leads to exactly that node |
| JsonPointer.PointersDiffer | lib/cjson/cJSON_Utils.c:198-259 | different nodes have different pointers |
| JsonPointer.FindPointer | lib/cjson/cJSON_Utils.c:198-259 | the search returns the pointer of the target exactly when the target lies in the tree |
| JsonPointer.GetItemFromPointer | lib/cjson/cJSON_Utils.c:301-346 | the loop along a pointer equals the specification, including undecodable indices and missing keys |
| JsonPointer.DoComparePointers | lib/cjson/cJSON_Utils.c:120-154 | the comparison loop |
| JsonPointer.TokenExamples | lib/cjson/cJSON_Utils.c:173-196 | the escapes, on two names of section 5 of RFC 6901 |
| JsonPointer.PointerEncodedLength | lib/cjson/cJSON_Utils.c:157-170 | exactly the length that encoding will write |
| JsonPointer.EncodeStringAsPointer | lib/cjson/cJSON_Utils.c:173-196 | the encoded string and its terminator, inside that length |
| JsonPointer.DecodeArrayIndex | lib/cjson/cJSON_Utils.c:274-299 | the index loop, with size_t wrap-around and its acceptance of every character from 0 on |
| JsonPointer.DecodePointerInPlace | lib/cjson/cJSON_Utils.c:359-390 | what decoding in place leaves in the buffer |
| JsonPointer.DecodeExact | lib/cjson/cJSON_Utils.c:359-390 | decoding in place undoes encoding if and only if the key is decodable: no slash, and each other character stays in its place |
| JsonPointer.DecodableClosed | lib/cjson/cJSON_Utils.c:359-390 | by the key's own characters: no slash, behind the first "~" only "~" and "0", and a "~" or the end wherever the encoding of a "~" falls |
| JsonPointer.SlashLost | lib/cjson/cJSON_Utils.c:359-390 | "a/b" and "~a" are not restored |
| JsonPatchCode.GenerateThenApply | lib/cjson/cJSON_Utils.c:1141-1294 | generating the patches from `from` to `to` and applying them to any tree equal to `from` up to member order succeeds and yields `to` up to member order, in both case modes, for keys that are decodable and differ ignoring case where they meet |
| JsonPatchKeys.PatchKeysExact | lib/cjson/cJSON_Utils.c:1038-1294 | in both case modes, generating and applying is right for all trees over a set of keys if and only if each key is decodable and no two differ in case only |
| JsonPatch.DiffApplies | lib/cjson/cJSON_Utils.c:1141-1279 | the same on decoded operations, by induction over the trees |
| JsonPatch.ItemsDiff | lib/cjson/cJSON_Utils.c:1170-1213 | arrays: common elements are patched, leftovers removed at one index, new elements appended |
| JsonPatch.MembersDiff | lib/cjson/cJSON_Utils.c:1215-1274 | objects: the walk along two sorted lists |
| JsonPatch.OpLifted | lib/cjson/cJSON_Utils.c:807-1036 | an operation below a child is that operation on the child |
| JsonPatch.PatchesShape | lib/cjson/cJSON_Utils.c:1141-1279 | the patches are one replacement of the root or operations below it |
| JsonPatchDiffs.PatchesDiffer | lib/cjson/cJSON_Utils.c:1141-1279 | every generated operation is about a difference: replaced only where types or scalars differ, removed only where the target has nothing, added only where the source has nothing, with the value of the target |
| JsonPatchDiffs.ItemPatchesDiffer | lib/cjson/cJSON_Utils.c:1170-1213 | for arrays: removed only behind the end of the target, appended only what lies behind the end of the source |
| JsonPatchDiffs.MemberPatchesDiffer | lib/cjson/cJSON_Utils.c:1215-1274 | for objects: removed only keys the target lacks, added only keys the source lacks |
| JsonPatch.ObjectAdd | lib/cjson/cJSON_Utils.c:1005-1017 | adding a member replaces an equal key |
| JsonPatch.ObjectRemove | lib/cjson/cJSON_Utils.c:430-481 | removing a member by its encoded key |
| JsonPatch.RemoveExact | lib/cjson/cJSON_Utils.c:430-481 | for distinct keys, removing a member by its key removes exactly it if and only if the key is decodable and no earlier sibling has the same key up to case |
| JsonPatchCode.NothingToPatch | lib/cjson/cJSON_Utils.c:1141-1279 | no patches are generated if and only if the trees are equal up to member order; with regard to case for all trees with distinct sibling keys |
| JsonPatchCode.PatchesOrEqual | lib/cjson/cJSON_Utils.c:1141-1279 | for any two trees there is nothing to patch if and only if compare_json finds them equal |
| JsonPatchCode.DecodeComposed | lib/cjson/cJSON_Utils.c:1096-1134 | a composed patch object decodes to what it was composed from |
| JsonPatchCode.OnlyMember | lib/cjson/cJSON_Utils.c:430-481 | removing the only member works if and only if its key is decodable, for every key |
| JsonPointer.DecodedTells | lib/cjson/cJSON_Utils.c:359-390 | what an encoded key is decoded to never differs from the key in case only |
| JsonPatchCode.WrongMemberRemoved | lib/cjson/cJSON_Utils.c:464-467 | for every two keys that differ in case only: the patch that removes one of them removes the other |
| JsonPatchCode.CreatePatches | lib/cjson/cJSON_Utils.c:1141-1279 | the recursive code generates exactly the specified patches |
| JsonPatchCode.CreateItemPatches | lib/cjson/cJSON_Utils.c:1170-1213 | its array loops |
| JsonPatchCode.CreateMemberPatches | lib/cjson/cJSON_Utils.c:1215-1274 | its object loop |
| JsonPatchCode.DoApplyPatches | lib/cjson/cJSON_Utils.c:1038-1094 | patches are applied in order up to the first failure, whose status is returned; what each does is in JsonPatchRfc |
| JsonPatchRfc.OperationIsRfc | lib/cjson/cJSON_Utils.c:807-1036 | each of the six operations makes of a document what section 4 of RFC 6902 asks for, and fails where it asks for an error, for keys that are told apart and decodable along the locations named and a root that stays in place |
| JsonPatchRfc.DocumentIsRfc | lib/cjson/cJSON_Utils.c:1038-1094 | a whole patch document, its members in any order, yields the document RFC 6902 describes and fails exactly where one of its operations does, where no operation follows a test |
| JsonPatchRfc.AddIsRfc | lib/cjson/cJSON_Utils.c:963-1017 | adding replaces or adds a member, inserts in front of an element or appends; it fails with 9, 10 or 11 for a missing parent, an index beyond the end and a token that is no index |
| JsonPatchRfc.RemoveIsRfc | lib/cjson/cJSON_Utils.c:887-902 | removing takes out the value at the location and closes the gap, or fails with 13 and changes nothing |
| JsonPatchRfc.ReplaceIsRfc | lib/cjson/cJSON_Utils.c:833-902 | replacing puts the new value in the place of an existing one, or fails with 13 and changes nothing |
| JsonPatchRfc.MoveIsRfc | lib/cjson/cJSON_Utils.c:904-942 | moving is removing the value at `from` and adding it at the target; it fails with 5 where there is none, and a move that fails at the target leaves it removed |
| JsonPatchRfc.CopyIsRfc | lib/cjson/cJSON_Utils.c:904-942 | copying adds the value found at `from` and leaves the source; it fails with 5 where there is none |
| JsonPatchRfc.TestIsRfc | lib/cjson/cJSON_Utils.c:831-836 | a test answers 0 if and only if there is a value at the location and it equals the given one up to member order |
| JsonPatchRfc.MoveIsRemoveThenAdd | lib/cjson/cJSON_Utils.c:904-942 | on trees: moving a member is removing it and adding its value at any target, if its key is decodable and no earlier sibling has the same key up to case |
| JsonPatchRfc.MemberMoves | lib/cjson/cJSON_Utils.c:904-942 | on meanings: moving member k of an object m to l gives (m - k) with l at m[k], whether or not l is there already |
| JsonPatchRfc.MemberCopies | lib/cjson/cJSON_Utils.c:904-942 | copying member k to l gives m with l at m[k], and k stays |
| JsonPatchRfc.WrongMemberMoved | lib/cjson/cJSON_Utils.c:464-467 | for every two keys that differ in case only, moving the second member takes the value of the first along |
| JsonPatchRfc.RootRefused | lib/cjson/cJSON_Utils.c:944-967 | moving or copying to the root always fails, where the standard replaces the document |
| JsonPatchRfc.MissingMembers | lib/cjson/cJSON_Utils.c:908-954 | an operation without its value or source fails with 7, 4 or 1 and changes nothing |
| JsonPatchRfc.MalformedRefused | lib/cjson/cJSON_Utils.c:816-830 | a patch without a path fails with 2, one with an unknown operation with 3 |
| JsonPatchRfc.SaysDecodes | lib/cjson/cJSON_Utils.c:742-781 | a patch object is read as the operation its members ask for, by their names |
| JsonPatchRfc.EditIs | lib/cjson/cJSON_Utils.c:430-481 | an edit at the end of a pointer makes the change at the location it names, and changes nothing where it fails |
| JsonPatchRfc.LookupIs | lib/cjson/cJSON_Utils.c:301-346 | a pointer finds the value at the location its tokens name, or nothing where there is none |
| JsonMerge.MergeIsRfc | lib/cjson/cJSON_Utils.c:1321-1379 | merge_patch computes the function of section 2 of RFC 7396, for trees with distinct sibling keys; without regard to case also for keys that differ ignoring case where they meet |
| JsonMerge.MergeApplies | lib/cjson/cJSON_Utils.c:1321-1379 | what merge_patch does, member by member, also for patches that name a key more than once |
| JsonMerge.GenerateThenMerge | lib/cjson/cJSON_Utils.c:1391-1471 | where the two lists are walked in step (orders agree, or both objects have the same keys), merging the generated patch yields `to` if and only if a merge patch can turn `from` into `to`; none is generated if and only if both are objects and equal up to member order |
| JsonMergeExact.GenerateThenMergeExact | lib/cjson/cJSON_Utils.c:1391-1471 | for any two trees, merging the generated patch yields `to` if and only if, along the walk, each member added is not one of `from` still to be passed and has no nulls, and each common member is equal or reached in turn |
| JsonMergeExact.WalkExact | lib/cjson/cJSON_Utils.c:1416-1461 | the same for the walk along two lists, from any members on |
| JsonMergeExact.GeneratedFits | lib/cjson/cJSON_Utils.c:1391-1471 | the keys of a generated patch are told apart from those that are there when each is merged |
| JsonMergeKeys.KeysExact | lib/cjson/cJSON_Utils.c:1321-1471 | in both case modes, generating and merging is right for all trees over a set of keys whose target can be expressed if and only if the order ignoring case is that of strcmp on these keys and no two differ in case only |
| JsonMergeKeys.OrderLost | lib/cjson/cJSON_Utils.c:1410-1461 | for every two keys on which the orders differ, and with regard to case for every two that differ in case only: the nested walk adds a member, removes it again, and merging loses it |
| JsonMergeKeys.CaseUnseen | lib/cjson/cJSON_Utils.c:1452 | ignoring case, a key that changes its case only is not seen to change |
| JsonMerge.BetweenExact | lib/cjson/cJSON_Utils.c:1391-1471 | between any two values, merging the patch into the first yields the second if and only if each member of the second is one of the first as well, or is not null and can be reached from what is there |
| JsonMerge.GenerateMergeMeans | lib/cjson/cJSON_Utils.c:1391-1471 | the generated patch means the patch between the two meanings |
| JsonMerge.GenerateWalk | lib/cjson/cJSON_Utils.c:1416-1461 | the walk along two lists in step produces the patch between their meanings, with distinct keys |
| JsonMerge.MergeIntoNothing | lib/cjson/cJSON_Utils.c:1321-1379 | a value merges into nothing as itself if and only if it has no null members |
| JsonMerge.NullIsLost | lib/cjson/cJSON_Utils.c:1321-1379 | an input that is not expressible: a null member of the target is removed |
| JsonMerge.FullExpressible | lib/cjson/cJSON_Utils.c:1321-1379 | a target without null members is expressible from anything |
| JsonMerge.DoMergePatch | lib/cjson/cJSON_Utils.c:1321-1379 | the loop over the patch members |
| JsonMergeItems.MergeItems | lib/cjson/cJSON_Utils.c:1321-1379 | merge_patch on items, with regard to case: a tree with full child lists that holds the merged value, made of items of the target and fresh ones |
| JsonMergeItems.MergeMember | lib/cjson/cJSON_Utils.c:1341-1374 | one member of the patch, on the items of the target |
| JsonMergeItems.GetObjectItem | lib/cjson/cJSON.c:1898-1928 | the first child with this name, or none |
| JsonMergeItems.DetachMember | lib/cjson/cJSON.c:2205-2274 | the first child with this name is taken out, and the rest stays a full child list |
| JsonMergeItems.AddMember | lib/cjson/cJSON.c:1974-2086 | the item becomes the last child, and the trees stay trees |
| JsonMerge.DoGenerateMerge | lib/cjson/cJSON_Utils.c:1391-1471 | the generating loop |
| JsonList.AddItemToArray | lib/cjson/cJSON.c:1974-2005 | appends to the sequence and keeps the ring; a head's prev that names an earlier item cuts the list behind that item; a missing one silently changes nothing |
| JsonList.GetArrayItem | lib/cjson/cJSON.c:1869-1886 | the item at a position, or none |
| JsonList.DetachItemViaPointer | lib/cjson/cJSON.c:2205-2239 | removes from the sequence and keeps the ring |
| JsonList.DetachItemFromArray | lib/cjson/cJSON_Utils.c:393-427 | removes by position, or reports a missing item and changes nothing |
| JsonList.InsertItemInArray | lib/cjson/cJSON_Utils.c:693-728 | inserts at a position up to the end, and fails exactly beyond it |
| JsonList.InsertOrAppendItem | lib/cjson/cJSON.c:2281-2312 | inserts in front of a position or appends beyond the end, and fails exactly for a negative position |
| JsonList.ReplaceItemViaPointer | lib/cjson/cJSON.c:2315-2362 | updates the sequence and keeps the ring |
| JsonList.MergeLists | lib/cjson/cJSON_Utils.c:534-592 | merging two sorted lists in place: same items, sorted, linked both ways |
| JsonList.FindMiddle | lib/cjson/cJSON_Utils.c:509-521 | the two pointers find the middle |
| JsonList.Cut | lib/cjson/cJSON_Utils.c:522-527 | cutting gives two lists |
| JsonList.SortList | lib/cjson/cJSON_Utils.c:484-593 | terminates with the same items in nondescending key order, next and prev inverse; the head keeps its prev if it stays the head and has none otherwise |
| JsonSort.SortObject | lib/cjson/cJSON_Utils.c:595-602 | the same trees in key order; for keys that are told apart their members are in the order of SortMembers |
| JsonSort.AddAfterSort | lib/cjson/cJSON.c:1974-2005 | an item appended after a sort comes behind the sorted ones if and only if the sort has left the first and the last item in their places; success is reported in any case |
| JsonTree.AscendingUnique | lib/cjson/cJSON_Utils.c:595-602 | strictly ascending lists with the same members are the same |
| JsonDuplicate.Duplicate | lib/cjson/cJSON.c:2729-2810 | a tree of fresh items with the same value and full child lists, also of a source whose lists have lost the head's prev |
| JsonDuplicate.CopyChildren | lib/cjson/cJSON.c:2772-2795 | the walk copies every child in order and reads no prev |
| JsonDuplicate.CloseRing | lib/cjson/cJSON.c:2796-2799 | the head's prev becomes the last copy |
| JsonHeap.LinkItem | lib/cjson/cJSON.c:2780-2786 | a new last item is linked both ways, and the trees stay trees |
| JsonHeap.CloseChain | lib/cjson/cJSON.c:2796-2799 | setting the head's prev to the last item makes a chain a full child list |
| Client.RunSubscribedExact | src/zoho_iot_client.c:398-657 | over every run: while connected each registered handler's topic is subscribed on the current session after every call, if and only if no direct connect opened a session while a handler was registered |
| Client.StepSubscribed | src/zoho_iot_client.c:398-657 | one call keeps this exactly when it is not such a connect |
| Client.RunSubscribed | src/zoho_iot_client.c:596-657 | so over every run that never connects directly with a handler registered |
| Client.ResubscribeCovers | src/zoho_iot_client.c:640-657 | what a reconnect establishes, whatever the network answers |
| Client.ConnectExact | src/zoho_iot_client.c:398-583 | a successful direct connect keeps this if and only if no handler is registered |
| Client.UndisciplinedRun | src/zoho_iot_client.c:398-583 | a two-call run that breaks it |
| Client.RunConserves | src/zoho_iot_client.c:596-746 | every acknowledgement and event ever stored is in its slot or left it by resend, replacement or (events) expiry, with multiplicity; when each of these happens is in ClientAnswers |
| ClientAnswers.RunResent | src/zoho_iot_client.c:632-726 | over every run, a payload counts as resent only where a reconnect found it in its slot, opened a session with all subscriptions, and publishing it was answered with success; an event expires only where it is too old |
| ClientAnswers.RunStaysStored | src/zoho_iot_client.c:596-746 | over every run, a stored acknowledgement stays stored until another one is lost or a resend succeeds |
| ClientAnswers.StepAckSlot | src/zoho_iot_client.c:671-685 | the slot after a call: the new acknowledgement exactly after a lost connection, empty exactly after a successful resend, unchanged otherwise |
| ClientAnswers.StepAckEffects | src/zoho_iot_client.c:671-685 | which effects a call has on it, each if and only if the answers say so |
| ClientAnswers.StepEventSlot | src/zoho_iot_client.c:692-726 | the same for the event, which is stored after every failed publish and leaves by a successful resend or by expiry |
| ClientAnswers.StepEventEffects | src/zoho_iot_client.c:692-726 | which effects a call has on the event slot |
| ClientAnswers.StepConnected | src/zoho_iot_client.c:398-1296 | connected after a call if and only if it was before and no answer broke it, or the call opened a session and finished its subscriptions |
| ClientAnswers.ReconnectCode | src/zoho_iot_client.c:596-746 | a reconnect reports success exactly when the client is connected and whatever was stored could be printed |
| ClientAnswers.StepCode | src/zoho_iot_client.c:748-1195 | what publishing and subscribing report, in each state |
| ClientAnswers.StepRetries | src/zoho_iot_client.c:632-739 | only an attempt changes the number of failures and the interval: a session resets both, a failure adds one |
| ClientAnswers.StepHandlers | src/zoho_iot_client.c:1078-1195 | a handler is replaced by subscribing another one, whatever the broker answers, and never forgotten |
| Client.RunTimely | src/zoho_iot_client.c:692-726 | no event older than 300 seconds is resent, and only older ones expire |
| Client.ReplacedMeansStored | src/zoho_iot_client.c:949-982 | a replaced payload is followed by the new one in the same call |
| Client.StepSlots | src/zoho_iot_client.c:596-746 | the retry flags hold exactly when a payload is stored |
| Client.RunBackoff | src/zoho_iot_client.c:636-735 | over every run the interval is the back-off of the number of failures |
| Client.BackoffValues | src/zoho_utils.c:43-58 | 2, 4, ..., 2048, and 1800 from the eleventh failure on |
| Client.ReconnectWaits | src/zoho_iot_client.c:609-614 | before the interval has passed a reconnect does not touch the network |
| Client.ZohoClient.GetRetryInterval | src/zoho_utils.c:43-58 | doubling, then capping |
| Client.ZohoClient.DoConnect | src/zoho_iot_client.c:398-583 | new state and return code of every path |
| Client.ZohoClient.DoReconnect | src/zoho_iot_client.c:596-746 | new state, return code and slot effects of every path |
| Client.ZohoClient.FinishReconnect | src/zoho_iot_client.c:632-729 | subscriptions first, then the acknowledgement, then the event |
| Client.ZohoClient.DoSubscribe | src/zoho_iot_client.c:1078-1195 | the handler is kept even when the subscription fails |
| Client.ZohoClient.DoPublish | src/zoho_iot_client.c:748-782 | a lost connection is noticed |
| Client.ZohoClient.DoPublishAck | src/zoho_iot_client.c:988-1076 | an acknowledgement is stored exactly when the connection was lost |
| Client.ZohoClient.DoDispatchEvent | src/zoho_iot_client.c:906-986 | an event is stored after every failed publish |
| Client.ZohoClient.DoYield | src/zoho_iot_client.c:1197-1251 | state and return code |
| Client.ZohoClient.DoDisconnect | src/zoho_iot_client.c:1253-1296 | disconnected in any case |
| ZLog.RenameDownShifts | src/zoho_log.c:343-390 | the rename loop moves every file up by one and drops the oldest |
| ZLog.WriteRotatesExactly | src/zoho_log.c:291-403 | a write starts a new file if and only if the log was open and its file is over the limit: then every file moves up by one and the record stands alone; otherwise it follows those in the current file and nothing else changes |
| ZLog.WriteWithoutRolling | src/zoho_log.c:332-340 | with no rolled files a new file takes the place of the old one |
| ZLog.StepOtherwise | src/zoho_log.c:238-258 | every other call leaves the files alone; freeing closes the log and an accepted write opens it |
| ZLog.SizeCounts | src/zoho_log.c:291-297 | the size compared with the limit is the number of characters in the file |
| ZLog.RotationKeeps | src/zoho_log.c:332-395 | a rotation keeps "files 0..k, oldest to newest, are a suffix of everything logged" |
| ZLog.RunKeeps | src/zoho_log.c:248-407 | this holds after every run, and nothing is lost until the rolling files are used up |
| ZLog.RunBoundedExact | src/zoho_log.c:238-403 | over every run: after each call every file is over the limit by at most its last record, if and only if no write reopened a freed log on a file over the limit |
| ZLog.StepBounded | src/zoho_log.c:248-403 | one call keeps this exactly when it is not such a write |
| ZLog.RunBounded | src/zoho_log.c:283-403 | so always while the log is never freed |
| ZLog.FreeBreaksBound | src/zoho_log.c:238-246 | for every limit there is a run that frees the log and breaks it |
| ZLog.Logger.Rotate | src/zoho_log.c:341-391 | the code's rotation is the specified one |
| ZLog.Logger.LogLog | src/zoho_log.c:248-407 | a write is the specified step |

## Left out

- Allocation failure, `MBEDTLS_MPI_MAX_LIMBS` and zeroization: memory is always granted in all modules.
- The limb buffer of an `Mpi` is a sequence field and the window table a sequence of numbers, not C arrays; the `MULADDC` macros are taken as limb multiply-add with carry; shifts and disjoint ors are written as products, quotients and sums.
- ExpMod.ExpModMpi: the result for negative A, odd E and a residue of 0 is N, which the documentation of the function does not say; stated as the code has it.
- MpiGcd.GcdMpi: for B = 0 the code does not compute the gcd; stated as the code has it.
- Reading and writing numbers as text or bytes, random numbers, primality and prime generation.
- Block ciphers and key schedules: XTS and CCM are over arbitrary block functions, and the CCM wrappers that only check for a tag length of 0 are not modelled. For a tag length of 0 the flag byte is 0xF8, as in the code.
- JsonParseBuffer.ParseBuffer.DoParseNumber: number tokens that are not integers in int range are refused here, because the model has no floating point; `strtod` itself is a specification function on the copied characters.
- Numbers other than ints, raw items, references, constant keys and locales.
- The reported error position of a failed parse.
- JsonList.SortList: keys are constant per item, and the sort is stated as a sorted permutation; the order of equal keys is stated on values only (`JsonTree.SortMembers`).
- JsonMergeItems.MergeItems: the case-insensitive twin, which may rename a member, and apply_patch on items are not modelled, since keys are constant per item. Target and patch have the same name at the top, as two unnamed roots have.
- Pointer and patch functions, and the generators, work on values: members are moved as in the code, but the relinking itself is in `JsonList` and, for merge_patch, in `JsonMergeItems`. That comparing sorts what it compares is modelled where the code goes on with the sorted values (`JsonCompare.AfterCompare` in `JsonMerge.GenerateMerge`); that the arguments of the generators are left sorted is not part of their results. The theorems about generated patches are therefore about trees whose lists still have the head's prev, such as a duplicate of `from` (`JsonDuplicate.Duplicate`), not about the sorted `from` itself.
- JsonEdit: the invalid item that removing the whole document leaves is Null, and a "from" that is not a string counts as missing, where the code would read a null pointer.
- JsonPatchCode.GenerateThenApply: needs keys that are decodable and, where they meet, differ ignoring case. Single pairs of trees can be patched right without this; for sets of keys `JsonPatchKeys.PatchKeysExact` says that it is exact.
- JsonMerge.GenerateThenMerge: needs `Walkable`; `JsonMergeExact.GenerateThenMergeExact` has no such condition. At the top level in the case-sensitive mode `Walkable` asks nothing about case (`JsonMerge.OrderedExactly`).
- JsonPatchCode.DoApplyPatches: says what the code does only for patch documents without a test. In the code a test sorts the objects it compares and leaves the head's prev of their lists behind: with the document {"b":1,"a":2}, testing it against itself and then adding "c" reports success without adding anything, and with {"a":1,"c":2,"b":3} the added member replaces "c". `JsonSort.AddAfterSort` says for every object when such an addition works.
- JsonParseBuffer.ParseBuffer.ParseElements: an item is allocated and linked after its value has been parsed, where the code does so before; on failure the items parsed so far are dropped, where the code deletes them.
- JsonPatchRfc.DocumentIsRfc: asks that no operation follows a test, for the reason in the line about `JsonPatchCode.DoApplyPatches`; `JsonPatchRfc.ListIsRfc` has the rest on values.
- JsonPatchRfc.OperationIsRfc: array tokens are "-" or digits below 2^64; what other characters the code takes for digits is in `JsonPointer.IndexTaken`. Removing the root is left to `JsonEdit`, where it leaves Null.
- TLS, sockets, HTTP and timers: network results and clock readings are parameters of each call.
- Threads and locks: the client is stated per API call, sequentially; the variant with the Paho C library is not modelled.
- Events with asset names: the stored copy lacks the asset wrapper, so nothing is said about the text that is resent.
- Log compression, deletion from outside, output to stderr, and the clamping of settings in `log_initialize`.
- base64, ASN.1, RC4 and Blowfish, and the example programs: they would only add easier round trips.
