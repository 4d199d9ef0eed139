# A verified model of the Bitcoin stack

This project models the hand-written Bitcoin stack of the repository (`Bitcoin/ecc.py`, `Bitcoin/op.py`,
`Bitcoin/script.py`, `Bitcoin/tx.py`, `Bitcoin/block.py`, `Bitcoin/merkle.py`) and the part of
`bitcoin_interface.py` that selects inputs, builds a payment and signs it, and proves what this code promises.
`dafny verify dfyconfig.toml` checks everything.

Code made of expressions is modelled by functions. Code that works step by step is a method over the same state (a
byte stream, the stack of the script machine, transaction objects whose inputs are written while they are hashed, the
caller's list of Merkle hashes), proved equal to a function; the properties are then lemmas about these functions.
`None` (or an outcome of its own) stands wherever the source raises or answers "nothing".

| module | what it models |
|---|---|
| `Prelude`, `Positional`, `NumberTheory`, `ExclusiveOr` | powers, numerals in any base, primes up to Fermat's little theorem, exclusive-or of unbounded numbers |
| `Field`, `Curve`, `Ecdsa` | modular arithmetic, point addition, double-and-add, signing and verifying, over any prime field |
| `SmallCurve` | a curve of seven points on which every hypothesis of these theorems is proved |
| `Sec`, `Der` | byte forms of points and of signatures |
| `Base58`, `Bech32`, `BchCode`, `ConvertBits`, `SegwitAddress`, `Addresses` | address codecs; the code behind the Bech32 checksum; the addresses of keys and the scripts for typed addresses |
| `ScriptNum`, `Stream`, `Script` | script numbers, variable-length integers, script parsing and printing |
| `Interpreter`, `Witness`, `Conditionals`, `Multisig`, `Checksig` | the script machine, its rules for witness programs, what nested conditionals mean, OP_CHECKMULTISIG, signature checks with real keys |
| `TxCodec`, `SigHash`, `Layout`, `Commitments`, `Transaction` | transaction formats and digests as functions; where every byte of them stands; what the digests commit to; the objects that parse, print, hash and cache |
| `Survival`, `SegwitSurvival` | which transactions come back from their bytes |
| `Wallet`, `Payable` | input selection, change, the signing loops, serialization; which payments can be signed |
| `SignedPayments` | the wallet with real keys: what the signature check and the script machine make of its payments |
| `Block`, `Merkle` | compact targets and retargeting; Merkle roots |

## Hypotheses

- Hash functions are parameters; at most the length of their values is assumed. No function with 32-byte values is
  injective, so injectivity is only ever asked for the strings that are actually hashed: `Merkle.RootCollision` reads a
  collision among them off two lists with one root, and `Merkle.RootInjective` follows.
- Theorems about scalar multiplication assume that point addition is associative (`Ecdsa.Associative`). Closure and
  commutativity are proved. `SmallCurve.HypothesesHold` proves all hypotheses, associativity included, of a curve over
  the field of seven elements, and `SmallCurve.SignerExists` signs on it, so the theorems are not empty.
- Results hold for every prime; the primality of the two secp256k1 numbers and the order of its generator are
  hypotheses of `Sec.Secp256k1`, which proves everything else the theorems ask of these constants.

## Where the code departs from what one would expect

The model follows the code; each point below has its exact condition proved.

- `FieldElement.__pow__` reduces every exponent modulo p - 1, so a zero base raised to a positive multiple of p - 1
  gives 1 (`Field.PowerIsProductExactly`). Over the field of three elements squares are then all 1, and adding two curve
  points raises exactly when a point with y other than 0 is doubled on a curve with a other than 2; over every larger
  prime field addition never raises (`Curve.AdditionRaisesExactly`).
- `S256Point.parse` accepts more than `sec` writes: it ignores zeros in front of x, bytes behind y and the difference
  between 3 and every other first byte but 2 and 4 (`Sec.ParseTolerates`). `Sec.ParsesTo` gives all the strings that stand
  for a point, and an accepted string is one that `sec` writes exactly if it has 65 bytes, the first of them 4, or 33, the
  first of them 2 or 3 (`Sec.EncodingExactly`). Every public key is read back (`Sec.PublicKeyReadsBack`); on other curves
  a compressed point with y = 0 would not be (`Sec.DecodeEncode`).
- `TxIn.parse` hands the sequence over in the position of the previous script, so every parsed input has the default
  sequence (`SegwitSurvival.SequenceLost`). The legacy format keeps a transaction exactly if its fields are in range, its
  scripts are reprintable and all its sequences are 0xffffffff (`Survival.LegacyExactly`).
- `serialize_segwit` writes the number of witness items as one byte, which is read as a variable-length integer: 0xfd
  items do not come back (`SegwitSurvival.WitnessLost`), and an empty witness item comes back as the number 0
  (`TxCodec.ReadBackItem`). `SegwitSurvival.SegwitExactly` says when the segwit format keeps a transaction.
- A script can be printed exactly if no element has 75 or more than 520 bytes and the whole is shorter than 2^64 bytes
  (`Script.SerializeExactly`). It is read back exactly if moreover its opcodes are 0 or at least 78 and no element is
  empty (`Script.ParseSerialized`); of what the parser makes, the empty elements are what does not come back
  (`Script.ParsedIsFixedPoint`).
- `evaluate` raises on every witness program of 32 bytes, because it compares bytes with a hash object and then asks that
  for its hexadecimal form (`Witness.ScriptHashRaises`).
- `SignTransaction` makes a version 0 script for every witness address it is given, so what it pays has the typed address
  exactly if that has version 0 (`Addresses.ReceiverExactly`; every program of 2 to 40 bytes has an address of version 1,
  `Addresses.NewerVersionPaidAsZero`). It makes a key hash script for every checksummed address, which has the typed
  address exactly if the version byte is 0 and there are as many '1' characters in front as zero bytes
  (`Addresses.LegacyReceiverExactly`, `Addresses.PaddedReceiver`).
- A signature is accepted for a digest other than its own if the two add up to -2 r e modulo the order, and makes
  `verify` raise for the digest -r e (`Ecdsa.MadeVerdict`, `SignedPayments.MovedSignature`).
- A signature makes `verify` raise if s is 0 modulo the order, which for every secret and nonce happens for some digest
  (`Ecdsa.ZeroDigest`); every other signature that is made verifies (`Ecdsa.SignedVerifies`).
- The fee may be negative; the outputs are worth at most the inputs exactly if it is not (`Wallet.PaymentBalances`).
- `verify_input` calls the attribute `script_pubkey`, so it raises before it gets to `evaluate`; what is proved of inputs
  is about `evaluate` with the digest and the witness that the code after that line would choose.
- `op_checkmultisig` does not look again after the search for the last signature: it pushes 1 for one key and one
  signature that the key does not verify (`Multisig.LastSearchUnchecked`; `Multisig.FullyMatchedExactly` says when the
  answer is right).
- `decode_base58` ignores leading '1' characters and nothing else (`Base58.LeadingOnesIgnored`,
  `Base58.SameNumberExactly`): what it reads is the encoding of the bytes it finds exactly if there is one '1' for each
  zero byte in front (`Base58.EncodeDecoded`).
- `target_to_bits` gives four bytes exactly from 0x8000 on (`Block.FourBytesExactly`).
- Merkle roots do not tell apart lists of different lengths. Two lists have one root exactly if the lower tree has the
  same leaves, repeated ones included, as the level of the higher tree that is as high (`Merkle.RootExactly`, for hashes
  that separate the strings hashed from there on). Repeating the last hash of an odd list, repeating a whole last part and
  replacing two hashes by their parent are instances (`Merkle.RepeatedLastCollides`, `Merkle.RepeatedPartCollides`,
  `Merkle.ParentAloneCollides`).

## Model

| member | source | states |
|---|---|---|
| `NumberTheory.Fermat` | Bitcoin/ecc.py:47-57 | a^(p-1) is 1 modulo every prime p that does not divide a, the fact the power and division operators rest on |
| `Field.InverseByFermat` | Bitcoin/ecc.py:52-57 | the (p-2)-th power is a multiplicative inverse of every non-multiple of p |
| `Field.DivisionInvertsMultiplication` | Bitcoin/ecc.py:52-57 | (x / y) * y = x, and x / y is the only residue with this property |
| `Field.PowerIsProductExactly` | Bitcoin/ecc.py:47-50 | reducing the exponent modulo p - 1 gives the true power exactly unless the base is 0 and the exponent is a positive multiple of p - 1; then it gives 1 instead of 0 |
| `Field.NegativePowerInverts` | Bitcoin/ecc.py:47-50 | the power for -e is the inverse of the power for e |
| `Curve.AdditionCloses` | Bitcoin/ecc.py:71-117 | in every other case over an odd prime field the sum passes the constructor's check and is a curve point |
| `Curve.AdditionRaisesExactly` | Bitcoin/ecc.py:71-117 | over every odd prime field, adding two curve points raises exactly for the doubling of a point with y other than 0 over three elements with a other than 2 |
| `Curve.ClosureFailsModThree` | Bitcoin/ecc.py:71-117 | doubling (1, 1) on y^2 = x^3 over three elements leaves the curve, so the constructor raises |
| `Curve.AdditionCommutes` | Bitcoin/ecc.py:93-117 | s + t = t + s for chords, tangents and infinity, over every prime field, two and three elements included |
| `Ecdsa.DoubleAndAdd` | Bitcoin/ecc.py:119-128 | the binary loop returns the coefficient-fold sum and never raises on a curve point |
| `Ecdsa.TimesAdd` | Bitcoin/ecc.py:119-128 | (m + n) P = m P + n P |
| `Ecdsa.TimesTimes` | Bitcoin/ecc.py:119-128 | m (n P) = (m n) P |
| `Ecdsa.GeneratorOrder` | Bitcoin/ecc.py:160-162 | no multiple of the generator by 1 .. n - 1 is infinity |
| `Ecdsa.VerifyMeaning` | Bitcoin/ecc.py:164-169 | the point verify computes is (z + r e) / s times the generator, for the public key of secret e |
| `Ecdsa.VerdictMeaning` | Bitcoin/ecc.py:164-169 | verify answers True exactly if the multiple (z + r e) / s of the generator has abscissa r, raises exactly if it is infinity, and answers False otherwise |
| `Ecdsa.Malleable` | Bitcoin/ecc.py:164-169 | (r, n - s) is accepted exactly when (r, s) is |
| `Ecdsa.SignedVerifies` | Bitcoin/ecc.py:164-237 | every signature made with a nonce in 1 .. n - 1 is accepted under the public key if s is not 0 modulo n, and makes verify raise otherwise, for every secret, z and rule for replacing s by n - s |
| `Ecdsa.MadeVerdict` | Bitcoin/ecc.py:164-237 | a signature made for z is accepted for z' exactly if n divides z' - z or z' + z + 2 r e, makes verify raise exactly if n divides z' + r e, and is refused otherwise |
| `Ecdsa.LowForm` | Bitcoin/ecc.py:230-237 | with the source's test for a high s, the kept s is at most half the order |
| `Ecdsa.ZeroDigest` | Bitcoin/ecc.py:164-237 | for every secret and nonce some digest below the order has a signature on which verify raises |
| `Ecdsa.PublicKeyShape` | Bitcoin/ecc.py:224-225 | over an odd order a public key is infinity exactly for multiples of the order, and otherwise a curve point with y not 0 |
| `SmallCurve.HypothesesHold` | Bitcoin/ecc.py:63-128 | on y^2 = x^3 + 5 over seven elements addition is associative, (3, 2) has the prime order seven, and every other hypothesis of the theorems on signatures and byte forms holds |
| `SmallCurve.SignerExists` | Bitcoin/ecc.py:230-237 | on that curve the secret 1 with nonce 1 has a written signature for the digest 0, so that the hypotheses on signed payments hold too |
| `SmallCurve.OtherDigestRefused` | Bitcoin/ecc.py:164-169 | that signature is refused for the digest 2 |
| `Der.ParseSignature` | Bitcoin/ecc.py:294-314 | the stream parser computes the parsing function, errors included |
| `Der.DecodeEncode` | Bitcoin/ecc.py:280-314 | der raises exactly outside 1 .. 2^256 - 1, and otherwise parse gives the signature back |
| `Der.DecodedShape` | Bitcoin/ecc.py:294-314 | every accepted byte string is exactly a header and two marked integers, with nothing after them |
| `Der.EncodeDecode` | Bitcoin/ecc.py:280-314 | an accepted byte string is what der would write exactly if both its integers are in their shortest form |
| `Der.WrittenSignatureVerifies` | Bitcoin/ecc.py:230-314 | a signature that is signed, written and parsed again verifies, unless r is zero or s is zero modulo the order |
| `Sec.SqrtFindsRoot` | Bitcoin/ecc.py:139-140 | for p = 3 modulo 4 the candidate root of y^2 is y or p - y |
| `Sec.LiftFinds` | Bitcoin/ecc.py:208-217 | lifting x with the parity of y finds the curve point (x, y), for y not 0 |
| `Sec.DecodeEncode` | Bitcoin/ecc.py:171-217 | parse undoes sec for both forms, exactly unless the form is compressed and y = 0 |
| `Sec.PublicKeyReadsBack` | Bitcoin/ecc.py:171-225 | over an odd order sec writes exactly the keys of secrets that are no multiples of the order, and parse gives each of them back in both forms |
| `Sec.EncodeDecode` | Bitcoin/ecc.py:171-217 | whatever parse accepts lies on the curve, and 65 bytes that start with 4 and 33 bytes that do not are the encoding of their point up to the meaning of the first byte |
| `Sec.ParsesTo` | Bitcoin/ecc.py:197-217 | exactly which byte strings of any length parse reads as a given curve point |
| `Sec.EncodingExactly` | Bitcoin/ecc.py:171-217 | an accepted string is one of the two forms of its point exactly if it has 65 bytes, the first of them 4, or 33, the first of them 2 or 3 |
| `Sec.ParseTolerates` | Bitcoin/ecc.py:197-217 | zeros in front of x, bytes behind y and other first bytes in place of 3 change nothing |
| `Sec.Secp256k1` | Bitcoin/ecc.py:130-221 | the constants P, A, B, N and G of secp256k1 meet the hypotheses of the theorems once P and N are prime, addition is associative and N kills G; P is 2^256 - 2^32 - 977 and N lies between 2 and P |
| `Base58.AlphabetSpelled` | Bitcoin/ecc.py:324 | the d-th character of the alphabet is the symbol the model gives to digit d |
| `Base58.EncodeBase58` | Bitcoin/ecc.py:325-338 | the loops write one '1' for each leading zero byte and then the base-58 numeral |
| `Base58.EncodeNumber` | Bitcoin/ecc.py:332-337 | the second loop writes the numeral without leading zeros |
| `Base58.EncodeInjective` | Bitcoin/ecc.py:325-338 | different byte strings have different encodings, leading zeros included |
| `Base58.ValueOfEncoding` | Bitcoin/ecc.py:325-350 | the characters of an encoding spell the number of the bytes |
| `Base58.DecodeBase58` | Bitcoin/ecc.py:345-354 | the loop raises at a character outside the alphabet and otherwise checks the number the characters spell |
| `Base58.CheckMeaning` | Bitcoin/ecc.py:350-354 | a payload is returned exactly if the number is that of a version byte, the payload and their checksum |
| `Base58.DecodeEncodeChecksum` | Bitcoin/ecc.py:341-354 | decoding the checksummed encoding of 21 bytes gives them back without the first |
| `Base58.LeadingOnesIgnored` | Bitcoin/ecc.py:345-350 | leading '1' characters never change what is decoded |
| `Base58.SameNumberExactly` | Bitcoin/ecc.py:345-350 | two readable strings spell the same number exactly if they are equal without their leading '1' characters |
| `Base58.EncodeDecoded` | Bitcoin/ecc.py:325-350 | of the strings that spell the number of some bytes, their encoding is the one with a '1' for each leading zero byte |
| `ConvertBits.ConvertBits` | Bitcoin/ecc.py:414-434 | the loops with their truncated accumulator regroup the number the symbols write, for all widths |
| `ConvertBits.PaddingMeaning` | Bitcoin/ecc.py:414-434 | with padding the answer is exactly the zero-extension by less than one output symbol |
| `ConvertBits.UnpaddingMeaning` | Bitcoin/ecc.py:414-434 | without padding exactly the zero-extensions by less than one symbol of either width are accepted, and stripped |
| `ConvertBits.ConversionsInverse` | Bitcoin/ecc.py:414-434 | wide to narrow with padding and narrow to wide without are inverse, between all wide sequences and exactly the accepted narrow ones |
| `Bech32.Polymod` | Bitcoin/ecc.py:360-369 | the loop with its five conditional exclusive-ors computes the fold of the round function |
| `Bech32.StepLinear` | Bitcoin/ecc.py:363-368 | a round commutes with exclusive-or in both arguments |
| `Bech32.FeedLinear` | Bitcoin/ecc.py:360-369 | so do runs of rounds over sequences of any length |
| `Bech32.IndependentModulo32` | Bitcoin/ecc.py:361-368 | no nonempty choice of the five constants cancels in the low five bits |
| `Bech32.StepKernel` | Bitcoin/ecc.py:363-368 | a round with symbol 0 maps only 0 to 0, so it is a bijection of the 30-bit words |
| `Bech32.FeedInjective` | Bitcoin/ecc.py:360-369 | feeding the same words never merges two 30-bit states |
| `Bech32.ChecksumVerifies` | Bitcoin/ecc.py:377-386 | data followed by the checksum made for it verifies |
| `Bech32.ChecksumUnique` | Bitcoin/ecc.py:377-386 | no other six symbols verify |
| `Bech32.BurstDetected` | Bitcoin/ecc.py:377-379 | two verifying strings that differ only within six neighbouring symbols are equal |
| `Bech32.SingleErrorDetected` | Bitcoin/ecc.py:377-379 | replacing one symbol of a verifying string of any length never verifies |
| `BchCode.StepIsDivision` | Bitcoin/ecc.py:363-368 | a round with its five constants is one step of dividing by x^6 + 29 x^5 + 22 x^4 + 20 x^3 + 21 x^2 + 29 x + 18 over the field of 32 elements |
| `BchCode.FeedIsRemainder` | Bitcoin/ecc.py:360-369 | bech32_polymod computes the remainder modulo that polynomial, for symbols of any number |
| `BchCode.ConstantsAreDoubles` | Bitcoin/ecc.py:362 | the five constants are the coefficients of that polynomial, doubled in the field again and again |
| `BchCode.VerifiesExactly` | Bitcoin/ecc.py:377-379 | a string verifies exactly if the polynomial of 1, the expanded prefix and the data leaves 1 |
| `BchCode.ExpandLayout` | Bitcoin/ecc.py:372-374 | the expanded prefix is the upper parts of its characters, 0, and their lower five bits |
| `SegwitAddress.DecodeEncoding` | Bitcoin/ecc.py:389-411 | bech32_decode undoes bech32_encode exactly for non-empty lower-case printable prefixes of at most 83 characters |
| `SegwitAddress.EncodeDecoded` | Bitcoin/ecc.py:389-411 | every decoded string is, in lower case, the encoding of its parts |
| `SegwitAddress.DecodesExactly` | Bitcoin/ecc.py:395-411 | decoded are exactly the printable strings in one letter case that are, in lower case, the encoding of a valid prefix and data |
| `SegwitAddress.AddressRoundTrip` | Bitcoin/ecc.py:437-461 | an address exists exactly for valid prefixes, versions and programs, and decodes to them |
| `SegwitAddress.DecodedIsAddress` | Bitcoin/ecc.py:437-461 | every accepted string is, in lower case, the address of what it decodes to |
| `Addresses.KeyAddressDecodes` | Bitcoin/ecc.py:182-195 | the address of every key, in both formats, leads to the script for the hash of that key |
| `Addresses.ReadExactly` | bitcoin_interface.py:239-242 | a typed checksummed address is unreadable exactly for a foreign character or a number over 25 bytes, invalid exactly for a wrong checksum, and otherwise pays all but the version byte |
| `Addresses.ReceiverExactly` | bitcoin_interface.py:266-268 | a typed witness address is paid to its program, which has that address, in lower case, exactly if its version is 0 |
| `Addresses.NewerVersionPaidAsZero` | bitcoin_interface.py:266-268 | every program of 2 to 40 bytes has an address of version 1, and what is paid to it has another address |
| `Addresses.LegacyReceiverExactly` | bitcoin_interface.py:269-271 | what is paid to any typed checksummed address has that address exactly if the version byte is 0 and there are as many leading '1' characters as leading zero bytes |
| `Addresses.EncodedReceiver` | bitcoin_interface.py:269-271 | the encoding of a hash with any version byte is paid as a key hash |
| `Addresses.PaddedReceiver` | bitcoin_interface.py:269-271 | the address of a key with more '1' characters in front is paid like the address, which it is not |
| `ScriptNum.EncodeNum` | Bitcoin/op.py:15-34 | the loop and the sign byte compute the encoding |
| `ScriptNum.DecodeNum` | Bitcoin/op.py:37-55 | the loop computes the decoding |
| `ScriptNum.DecodeMeaning` | Bitcoin/op.py:37-55 | an element is its magnitude, least significant byte first, negated if the last byte has its top bit set |
| `ScriptNum.DecodeEncode` | Bitcoin/op.py:15-55 | every integer is read back |
| `ScriptNum.EncodeDecode` | Bitcoin/op.py:15-55 | an element is the encoding of its number exactly if it is empty, its last byte has a nonzero low part, or the byte before has its top bit set |
| `Stream.ByteStream.Read` | Bitcoin/tx.py:13-22 | reads from the front, fewer bytes at the end |
| `Stream.ByteStream.ReadVarint` | Bitcoin/tx.py:13-22 | the stream form of the integer decoder |
| `Stream.VarintRoundTrip` | Bitcoin/tx.py:13-35 | an encoded integer is read back and what follows is left |
| `Layout.VarintLayout` | Bitcoin/tx.py:25-35 | which first byte and how many bytes an integer is given, and where they stand |
| `Layout.VarintShortest` | Bitcoin/tx.py:13-35 | the encoding is the shortest complete byte string that is read as the integer, and the only one of its length |
| `Layout.VarintReads` | Bitcoin/tx.py:13-22 | an integer is read behind every prefix that has room for it |
| `Script.ReadCmd` | Bitcoin/script.py:77-105 | one pass of the parsing loop, short elements and missing bytes at the end of the stream included |
| `Script.ParseFrom` | Bitcoin/script.py:67-108 | the parser consumes the stream as the parsing function says and raises when the count overruns |
| `Script.SerializeScript` | Bitcoin/script.py:110-146 | the printer computes the printing function, its refused lengths included |
| `Script.SerializeExactly` | Bitcoin/script.py:110-146 | a script is printed exactly if each element has fewer than 75 or 76 to 520 bytes and the whole is shorter than 2^64 bytes |
| `Script.NextOfPrinted` | Bitcoin/script.py:67-137 | a printed command is read back whole if it is reprintable and as the other kind of command otherwise |
| `Layout.CommandLayout` | Bitcoin/script.py:110-137 | an opcode is its byte; an element stands behind its length, behind 76 and one byte, or behind 77 and two |
| `Layout.CommandReads` | Bitcoin/script.py:77-105 | what the parser makes of an opcode, of an element, of a short element and of the end of the stream |
| `Layout.LongCommandReads` | Bitcoin/script.py:90-100 | what it makes of elements behind 76 and 77 |
| `Layout.KeyScriptLayout` | Bitcoin/script.py:15-20 | the bytes of the scripts for key hashes and witness key hashes |
| `Script.ParseSerialized` | Bitcoin/script.py:67-146 | printing succeeds and parsing gives the script back and leaves what follows, exactly if the opcodes are 0 or at least 78, the elements have 1 to 74 or 76 to 520 bytes and the whole is shorter than 2^64 bytes |
| `Script.ParsedIsFixedPoint` | Bitcoin/script.py:67-146 | a parse result is printed exactly if its elements are printable, and survives printing and parsing exactly if moreover none is empty |
| `Script.ParsedSize` | Bitcoin/script.py:67-108 | parsed commands are never larger than the bytes counted for them |
| `Interpreter.Evaluation.OpIf` | Bitcoin/op.py:152-221 | the draining and refilling of the queue by op_if and op_notif is the scan for the two branches |
| `Interpreter.ScanShrinks` | Bitcoin/op.py:152-185 | the branches and the rest together are smaller than the drained queue |
| `Interpreter.StepShrinks` | Bitcoin/script.py:154-205 | every pass of evaluate leaves fewer bytes in the queue, also when a branch is spliced back or a redeem script replaces it |
| `Interpreter.RedeemMeaning` | Bitcoin/script.py:183-205 | the pay-to-script-hash rule runs the pushed element as a script on the stack below it exactly if the element has the expected hash |
| `Interpreter.P2shExactly` | Bitcoin/script.py:185-187 | the rule looks for OP_HASH160, 20 bytes and OP_EQUAL, and nothing else |
| `Interpreter.PushExactly` | Bitcoin/script.py:179-181 | every other element is pushed and nothing else happens |
| `Interpreter.ScriptHashMeaning` | Bitcoin/script.py:179-205 | an element in front of that script is rejected without the hash, and otherwise run as a script, or raises |
| `Interpreter.PushesRun` | Bitcoin/script.py:232-236 | a script of elements is accepted exactly if there is a last one and it is not empty |
| `Interpreter.Evaluation.Pass` | Bitcoin/script.py:154-229 | one pass of the loop does one step of the machine in place, and leaves a witness program where its rule finds it |
| `Interpreter.Evaluation.Evaluate` | Bitcoin/script.py:148-205 | without the witness rules, the loop terminates on every script and computes the run of the machine |
| `Witness.EvaluateWithin` | Bitcoin/script.py:148-236 | with them, the loop in place is after any number of passes where the machine is |
| `Witness.EndsAsRun` | Bitcoin/script.py:148-236 | a run on which no witness rule fires ends with the outcome the machine without them has, whatever the witness |
| `Witness.EndsByRule` | Bitcoin/script.py:206-229 | every other run comes to a witness program, and its outcomes are exactly those of what the rule makes of it |
| `Witness.ScriptHashRaises` | Bitcoin/script.py:216-229 | a witness program of 32 bytes makes evaluate raise for every witness |
| `Witness.KeyHashMeaning` | Bitcoin/script.py:206-213 | a witness program of 20 bytes means running the rest of the script, the witness and then the script for that key hash |
| `Conditionals.ScanConditional` | Bitcoin/op.py:152-185 | scanning a flattened conditional finds its body, its joined OP_ELSE parts and what follows its OP_ENDIF, at any nesting |
| `Conditionals.Simulates` | Bitcoin/script.py:154-181 | the flat run of any program part does what the structured evaluator says and then goes on with the rest of the queue |
| `Conditionals.FlatMeansStructured` | Bitcoin/script.py:148-236 | flat evaluation has the structured outcome and never reaches a bare OP_ELSE or OP_ENDIF, whenever no push triggers a special rule |
| `Conditionals.FlatMeansStructuredBySize` | Bitcoin/script.py:148-236 | in particular for every program without elements of 20 or 32 bytes, whatever its operations do |
| `Multisig.DropUntil` | Bitcoin/op.py:716-721 | the inner loop drops the keys up to the first that verifies |
| `Multisig.MatchAll` | Bitcoin/op.py:710-723 | the scan raises exactly if it gets to a check that raises, and otherwise accepts exactly if keys are left before every signature |
| `Multisig.OpCheckMultisig` | Bitcoin/op.py:686-726 | counts, keys, signatures and the extra element are popped, parsed and answered as specified, errors included |
| `Multisig.CheckedAsLaidOut` | Bitcoin/op.py:686-726 | on an extra element, signatures with any hash type bytes, their count, keys and their count, the operation ends as the scan over these signatures without those bytes and these keys, and leaves what is below |
| `Multisig.KeyUnparsed` | Bitcoin/op.py:704-706 | the first key that does not parse ends the operation |
| `Multisig.SignatureUnparsed` | Bitcoin/op.py:704-708 | if all keys parse, the first signature that does not ends it |
| `Multisig.TakenIsLaidOut` | Bitcoin/op.py:686-703 | arguments are taken from no other stack |
| `Multisig.TooFewKeys` | Bitcoin/op.py:689-691 | with too few elements for the keys the operation returns False |
| `Multisig.TooFewSignatures` | Bitcoin/op.py:695-697 | so it does with too few for the signatures |
| `Multisig.GreedyOptimal` | Bitcoin/op.py:710-721 | while keys are left, the earlier signatures have an order-preserving matching that uses exactly the dropped keys, and none uses fewer |
| `Multisig.AcceptedExactly` | Bitcoin/op.py:710-723 | 1 is pushed exactly if all signatures but the last have an order-preserving matching that leaves a key |
| `Multisig.SucceedsExactly` | Bitcoin/op.py:710-725 | unless a check on the way raises, 1 is pushed exactly if all signatures but the last have an order-preserving matching to keys that verify them, with a key left |
| `Multisig.RaisedMeans` | Bitcoin/op.py:710-721 | the scan raises only if some check does, and certainly if the first one does |
| `Multisig.FullyMatchedExactly` | Bitcoin/op.py:710-723 | all signatures are matched exactly if 1 is pushed and the last search found a key |
| `Multisig.LastSearchUnchecked` | Bitcoin/op.py:710-723 | one key and one signature it does not verify are accepted |
| `SignedPayments.OwnMultisigAccepted` | Bitcoin/op.py:686-726 | on the stack, signatures that some of the written keys made for the digest, in the order of the keys and with any hash type bytes, are never refused |
| `TxCodec.ReadBackItem` | Bitcoin/tx.py:143-191 | exactly non-empty byte strings and the number 0 are read back as witness items |
| `TxCodec.LegacyBytesExactly` | Bitcoin/tx.py:164-173 | serialize_legacy succeeds exactly if version, lock time, indices, sequences, amounts and counts are in range and every script is printable |
| `TxCodec.SegwitBytesExactly` | Bitcoin/tx.py:176-193 | serialize_segwit succeeds exactly if moreover every witness is set, has fewer than 256 items and holds numbers of one byte and elements shorter than 2^64 bytes |
| `Layout.InputLayout` | Bitcoin/tx.py:354-359 | an input is its reversed transaction id, its index, its script and its sequence |
| `Layout.OutputLayout` | Bitcoin/tx.py:387-394 | an output is its amount in eight bytes and its script |
| `Layout.LegacyLayout` | Bitcoin/tx.py:164-173 | a transaction is its version, its counted inputs, its counted outputs and its lock time |
| `Layout.SegwitLayout` | Bitcoin/tx.py:176-193 | the segwit format is the legacy one with the bytes 0 and 1 behind the version and the witnesses in front of the lock time |
| `Layout.MarkerRequired` | Bitcoin/tx.py:128-134 | parse_segwit insists on these two bytes |
| `Layout.WitnessLayout` | Bitcoin/tx.py:185-191 | a witness is one byte that counts its items, and the items |
| `TxCodec.LegacyRoundTrip` | Bitcoin/tx.py:112-173 | for every transaction with fields in range and reprintable scripts, parse_legacy of serialize_legacy gives every field but the sequences, which become the default, and leaves the bytes that follow |
| `TxCodec.SegwitRoundTrip` | Bitcoin/tx.py:128-193 | parse_segwit of serialize_segwit does the same for transactions with readable witnesses, and gives the witnesses back |
| `Survival.LegacyExactly` | Bitcoin/tx.py:112-173 | serialize_legacy succeeds and parse_legacy gives all serialized fields back and leaves what follows, exactly if the fields are in range, the scripts reprintable and every sequence 0xffffffff |
| `SegwitSurvival.SegwitExactly` | Bitcoin/tx.py:128-193 | the same for the segwit format, together with all witnesses, exactly if moreover every witness is set, has fewer than 0xfd items and holds only non-empty elements and zeros |
| `SegwitSurvival.SequenceLost` | Bitcoin/tx.py:345-351 | a transaction with a sequence other than 0xffffffff that is serialized and does not come back |
| `SegwitSurvival.WitnessLost` | Bitcoin/tx.py:143-186 | a transaction with a witness of 0xfd items that is serialized and does not come back |
| `SigHash.LegacyDigestIgnoresSignatures` | Bitcoin/tx.py:196-219 | sig_hash of any input does not depend on script signatures or witnesses |
| `SigHash.SegwitDigestIgnoresSignatures` | Bitcoin/tx.py:222-269 | neither does sig_hash_bip143, nor do its cached parts |
| `Layout.DigestLayout` | Bitcoin/tx.py:216-219 | the digest is the hash, read with the most significant byte first |
| `Layout.LegacyPreimageLayout` | Bitcoin/tx.py:196-217 | sig_hash hashes the transaction with no script signatures but the redeem script, or else the previous script, at the signed input, and 1, 0, 0, 0 |
| `Layout.SegwitPreimageLayout` | Bitcoin/tx.py:222-269 | the ten parts of what sig_hash_bip143 hashes, each at its position |
| `Layout.ScriptCodeLayout` | Bitcoin/tx.py:256-262 | the script code is the witness script, or the key hash script for the redeem script or the previous script |
| `Commitments.LegacyPreimageIsTransaction` | Bitcoin/tx.py:196-217 | what sig_hash hashes is the serialized transaction with blanked scripts, except the signed input's, followed by the hash type |
| `Commitments.LegacyCommits` | Bitcoin/tx.py:196-217 | equal hashed strings come from transactions that agree in version, outputs, lock time, and in outpoint, sequence and shown script of every input |
| `Commitments.SegwitCommits` | Bitcoin/tx.py:222-269 | equal hashed strings agree in version, lock time, the three hashes, and in outpoint, script code, amount and sequence of the signed input |
| `Commitments.SegwitCommitsToAll` | Bitcoin/tx.py:222-269 | if the hash separates the strings hashed for outpoints, sequences and outputs, equal hashed strings agree in all outpoints, all sequences and all outputs |
| `Transaction.ParseIn` | Bitcoin/tx.py:345-351 | the stream parser of inputs makes a new object with the fields the code gives it |
| `Transaction.ParseOut` | Bitcoin/tx.py:381-385 | the stream parser of outputs |
| `Transaction.ParseWitnesses` | Bitcoin/tx.py:142-151 | each witness is stored in its own input and no other input changes |
| `Transaction.ParseLegacy` | Bitcoin/tx.py:112-125 | the parser loops compute the legacy reader and leave the stream behind the transaction |
| `Transaction.ParseSegwit` | Bitcoin/tx.py:128-154 | the parser loops compute the segwit reader, the marker check included |
| `Transaction.Tx.SerializeLegacy` | Bitcoin/tx.py:164-173 | the accumulating loops compute the legacy bytes |
| `Transaction.Tx.SerializeSegwit` | Bitcoin/tx.py:176-193 | the accumulating loops compute the segwit bytes |
| `Transaction.Tx.SignatureHash` | Bitcoin/tx.py:196-219 | the loop over re-made inputs computes the legacy digest |
| `Transaction.Tx.HashInputs` | Bitcoin/tx.py:222-237 | both lazily filled caches equal a fresh computation, and stay so |
| `Transaction.Tx.HashOuts` | Bitcoin/tx.py:240-246 | so does the cached hash of the outputs |
| `Transaction.Tx.SignatureHashBip143` | Bitcoin/tx.py:249-269 | whatever is cached, the digest is the one computed afresh, and the caches stay right |
| `Wallet.SpentIsShortest` | bitcoin_interface.py:244-253 | the spent outputs are the shortest nonempty prefix that covers amount and fee, if there is one |
| `Wallet.AllSpent` | bitcoin_interface.py:244-253 | otherwise everything is spent |
| `Wallet.SelectInputs` | bitcoin_interface.py:244-253 | the loop makes one fresh input for each spent output and sums their values |
| `Wallet.PaymentBalances` | bitcoin_interface.py:252-280 | the outputs of every signed payment sum to its inputs minus the fee, no output, the change included, is negative, and they exceed the inputs exactly for a negative fee |
| `Wallet.SignedPays` | bitcoin_interface.py:244-280 | what is serialized spends the spent outputs in their order and pays the change to the sender, the amount to the receiver and nothing to the memo, in this order and nothing else |
| `Wallet.BroadcastPays` | bitcoin_interface.py:244-301 | so does the transaction that the broadcast bytes are read as |
| `Wallet.RefusedExactly` | bitcoin_interface.py:228-229 | a payment is refused exactly if the balance does not cover amount and fee |
| `Wallet.SignaturesFitFinished` | bitcoin_interface.py:281-296 | every input of the finished transaction carries the signature over its own digest on the finished transaction |
| `Wallet.SignNth` | bitcoin_interface.py:281-296 | one pass signs one input on the partly signed transaction, over the digest of the unsigned one, and keeps the caches right |
| `Wallet.SignAll` | bitcoin_interface.py:281-296 | the signing loops leave the finished transaction behind, or fail exactly if some input cannot be signed |
| `Wallet.SignTransaction` | bitcoin_interface.py:244-301 | the selection, the outputs, the signing in place and the serialization have the specified outcome |
| `Wallet.SignedExactly` | bitcoin_interface.py:228-301 | a payment is signed exactly if the balance covers it, every input can be signed, and every field of the finished transaction, the change above all, is in range |
| `Payable.PayableHasDigests` | Bitcoin/tx.py:196-269 | a payment whose amounts, change, output indices, hashes and memo are in range has a digest for every input |
| `Payable.SignedByInputs` | bitcoin_interface.py:228-301 | a payment is signed exactly if the balance covers it, its amounts, change, output indices, hashes and memo are in range, and the signature of every spent input can be made and written |
| `Payable.MemoRefused` | bitcoin_interface.py:274-275 | no payment with a memo of 75 or more than 520 bytes is ever signed |
| `Wallet.BroadcastReadsBack` | bitcoin_interface.py:298-301 | what is broadcast parses back, in the sender's format, to the finished transaction with its witnesses |
| `SignedPayments.FinishedVerifies` | bitcoin_interface.py:281-296 | for the signer of any private key, every input of the finished transaction carries a key and a signature that parse, and the signature verifies under the key on that input's digest in the finished transaction |
| `SignedPayments.SignedWithKeyExactly` | bitcoin_interface.py:228-301 | with a real key, a payment is signed exactly if the balance covers it, it is in range, and no signature comes out with r or s zero |
| `SignedPayments.SignTyped` | bitcoin_interface.py:228-301 | from typed addresses: too low a balance and an invalid receiver are refused, an unreadable one raises, and otherwise the decoded hashes are paid |
| `SignedPayments.KeyScriptAccepts` | Bitcoin/script.py:148-236 | for a key and a signature that parse and a check that does not raise, evaluating them in front of the script for a key hash accepts exactly if the key has that hash and verifies the signature, and rejects otherwise |
| `SignedPayments.KeyScriptExactly` | Bitcoin/script.py:148-236 | any two elements in front of that script are rejected if the second does not have the hash, and otherwise end as the signature check says |
| `SignedPayments.CheckSigExactly` | Bitcoin/op.py:657-679 | op_checksig takes a key and a signature with its hash type byte off any stack, and answers, fails or raises as parsers and verify do |
| `SignedPayments.MovedSignature` | Bitcoin/script.py:148-236 | evaluating a signature made for one digest with another accepts exactly under the condition of `Ecdsa.MadeVerdict` |
| `SignedPayments.InputIsAccepted` | Bitcoin/script.py:148-236 | evaluate accepts every input of a finished transaction that spends what was paid to the hash of the key, with the digest and the witness of that input |
| `SignedPayments.PaymentIsAccepted` | bitcoin_interface.py:181-301 | every input of a payment the wallet signs and serializes is accepted, if the sending address is that of the key |
| `Block.TruncationBound` | Bitcoin/block.py:72-89 | every target from 0x8000 on has four bytes that decode to a target below it by less than one unit, which is at most the decoded target over 2^15 |
| `Block.EncodingMonotone` | Bitcoin/block.py:72-89 | a larger target never decodes to less |
| `Block.EncodingStable` | Bitcoin/block.py:72-89 | decoding and encoding again changes nothing |
| `Block.CanonicalExactly` | Bitcoin/block.py:72-89 | of all strings that stand for an integer, exactly the canonical ones are the encodings of what they stand for |
| `Block.FourBytesExactly` | Bitcoin/block.py:78-89 | an encoding has four bytes exactly for targets of at least 0x8000 |
| `Block.NewBitsDefined` | Bitcoin/block.py:92-98 | calculate_new_bits raises exactly for old bits that stand for no integer and for a new target that is zero or too large |
| `Block.RetargetExactly` | Bitcoin/block.py:92-98 | the answer is the encoding of the old target times the interval, brought between half a week and eight weeks, over two weeks, rounded down |
| `Block.RetargetBounds` | Bitcoin/block.py:92-98 | the new decoded target is at most four times the old and at least a quarter up to one unit, and two weeks fix canonical bits |
| `Block.RetargetMonotone` | Bitcoin/block.py:92-98 | more time never lowers the decoded target |
| `Merkle.ParentLevel` | Bitcoin/merkle.py:7-16 | a single hash is refused; otherwise the caller's list is evened and a new list holds the parents |
| `Merkle.TreeOfLevel` | Bitcoin/merkle.py:7-23 | folding level by level builds the recursive tree whose missing right halves repeat the left ones |
| `Merkle.MerkleRoot` | Bitcoin/merkle.py:19-23 | the loop terminates, answers the root of that tree and changes the caller's list by at most one copy of its last element |
| `Merkle.RootCollision` | Bitcoin/merkle.py:3-23 | from two different lists of equal length with one root, two different strings hashed on the way with the same hash can be read off |
| `Merkle.RootInjective` | Bitcoin/merkle.py:3-23 | if the hash is injective on the strings hashed for two lists of equal length, their roots are equal exactly if the lists are |
| `Merkle.RootExactly` | Bitcoin/merkle.py:3-23 | two lists of any lengths have one root if the lower tree has the leaves of the equally high level of the higher, and only then if the hash separates the strings hashed from there on |
| `Merkle.TreeCollision` | Bitcoin/merkle.py:3-23 | from two trees of one height with one root and different leaves a collision among the hashed strings can be read off |
| `Merkle.RepeatedLastCollides` | Bitcoin/merkle.py:7-23 | repeating the last hash of an odd list keeps the root, whatever the hash |
| `Merkle.RepeatedPartCollides` | Bitcoin/merkle.py:7-23 | repeating a whole right subtree keeps the root, also between lists of even length |
| `Merkle.ParentAloneCollides` | Bitcoin/merkle.py:3-23 | two hashes and their parent alone have one root |

## Left out

- Menus, prompts, files, RPC and HTTP, the network envelope, and the other chains of the repository.
- The internals of the hash functions and of `deterministic_k`: any function, and any nonce in 1 .. n - 1.
- Type errors of the field and point operators (mixed primes, points of different curves) and points over plain numbers.
- Individual opcodes beyond those of payments: the machine takes the operation table as a parameter, so the results hold
  for every table. The two time-lock operations, which `evaluate` calls with too few arguments, are entries that raise.
- Witness.EvaluateWithin: bounds the passes, because the witness rules lengthen the queue and nothing bounds the passes for every operation table.
- `Tx.parse`, `Tx.verify`, `verify_input` and `fee`: the first always takes the legacy branch, `verify_input` raises at its call of an attribute, and the others need fetched transactions.
- The fraction that `bits_to_target` computes for exponents below 3: the model answers `Inexact`.
- Negative versions given to `bech32_address`, which index the symbol table from its end.
- The characters that `str.lower` changes outside printable ASCII, which `bech32_decode` has already refused.
- Wallet.SignTransaction: takes amounts in satoshi and the balance as inputs; the conversion from decimal amounts is not modelled.
- `Tx.__init__` flags for the test network and the `segwit` flag, which only chooses between the two modelled formats.
- Negative coefficients of `Point.__rmul__`, on which its loop does not end.
