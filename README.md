# secp256k1 contract layer of Apollo, in Dafny

This project models the Kotlin code of Apollo that sits between its callers and
the libsecp256k1 elliptic-curve library. It covers five pieces:

- **The iOS `Secp256k1` object** checks argument sizes, opens a `memScoped`
  block, and pins the caller's byte arrays with `toNat`. The library then fills
  native structures, and `requireSuccess` turns its status codes into
  exceptions.
  - It is modelled as the class `Secp256k1Ios.Secp256k1`. Every public method
    is proved to return exactly what a pure function of `Secp256k1Spec`
    returns, and to make exactly that function's library calls, in order.
  - The class keeps an invariant, `Valid`, with three parts. The lazily created
    context exists, with the flags the object asks for, exactly when a call has
    been made. No library call reads or writes outside the buffers it was
    handed. Every public key leaves the library as a 65-byte uncompressed
    serialization.
  - The object also holds the open `memScoped` block: the contents of the
    arrays pinned in it, in pin order, each with its unpin deferred to the end
    of the block. `toNat` appends to it, and a pointer is the place of its pin.
    A library call must be handed, for each byte array it reads and in
    argument order, a pointer whose pin holds exactly that argument (`Live`).
    Every public method starts and ends with nothing pinned (`Idle`), on the
    return path and on the exception path.
- **The JVM `Secp256k1Lib` class** composes calls to the ACINQ binding, SHA-256
  and public-key validation (module `JvmSecp256k1Lib`).
- **The Apple `ECDH` class** is two size checks and one native call (module
  `AppleEcdh`).
- **The JS `ExtendedKey`** is a BIP-32 node with the derivation path that led
  to it (module `JsExtendedKey`).
- **The Base64 decoding getters of `StringExt.kt`** trim the decoder's output
  from the end (module `Base64Ext`).

The library itself is an uninterpreted value `Lib`. Each entry point of `Lib`
is a total function that returns a status code together with what the library
writes (`libsecp256k1.dfy`). Kotlin's exceptions are the `Err` side of
`Kotlin.Result`.

## Model

| member | source | states |
|---|---|---|
| Secp256k1Spec.RequireSuccess | base-asymmetric-encryption/src/iosMain/kotlin/io/iohk/atala/prism/apollo/secp256k1/Secp256k1.kt:26 | Status 1 passes through unchanged. Any other status throws `Secp256k1Exception` with the given message. |
| Secp256k1Spec.ParseSignatureRun | base-asymmetric-encryption/src/iosMain/kotlin/io/iohk/atala/prism/apollo/secp256k1/Secp256k1.kt:28-39 | An empty input throws IndexOutOfBounds (from `toNat`). 1 to 63 bytes throw "Unknown signature format" before any library call. Exactly 64 bytes are one compact parse. More than 64 bytes are one DER parse with the input's own length. A failed parse throws "cannot parse signature". |
| Secp256k1Spec.SerializeSignatureRun | base-asymmetric-encryption/src/iosMain/kotlin/io/iohk/atala/prism/apollo/secp256k1/Secp256k1.kt:41-49 | One compact serialization. The result is the 64 bytes written, exactly when the status is 1. |
| Secp256k1Spec.ParsePubkeyRun | base-asymmetric-encryption/src/iosMain/kotlin/io/iohk/atala/prism/apollo/secp256k1/Secp256k1.kt:51-61 | An empty key throws IndexOutOfBounds. Otherwise it is one parse with the key's own length. It succeeds exactly when the status is 1, and then yields the key the library wrote; otherwise it throws "secp256k1_ec_pubkey_parse() failed". |
| Secp256k1Spec.SerializePubkeyRun | base-asymmetric-encryption/src/iosMain/kotlin/io/iohk/atala/prism/apollo/secp256k1/Secp256k1.kt:63-75 | One uncompressed serialization into a 65-byte buffer. It succeeds exactly when the status is 1, and then returns the prefix the library reports writing, at most 65 bytes; otherwise it throws. |
| Secp256k1Spec.SerializeChecked | base-asymmetric-encryption/src/iosMain/kotlin/io/iohk/atala/prism/apollo/secp256k1/Secp256k1.kt:63-75 | A failed status throws before serializing. Otherwise it is exactly `serializePubkey` of the key written, with that call appended to the calls made before. It succeeds exactly when both statuses are 1. |
| Secp256k1Spec.VerifyRun | base-asymmetric-encryption/src/iosMain/kotlin/io/iohk/atala/prism/apollo/secp256k1/Secp256k1.kt:84-93 | A message other than 32 bytes, or a key other than 33/65 bytes, throws before any call. A key that does not parse throws with the parse's calls; a signature that does not parse throws with both parses' calls. Neither reads as `false`. Otherwise the calls are the two parses and the verify, in that order. The result is true exactly when the library's verify status is 1. |
| Secp256k1Spec.SignRun | base-asymmetric-encryption/src/iosMain/kotlin/io/iohk/atala/prism/apollo/secp256k1/Secp256k1.kt:95-112 | The key and message must be 32 bytes. Then the calls are the signing call and, when it succeeds, the compact serialization. The result is Ok exactly when both statuses are 1, and is then the 64 bytes serialized. |
| Secp256k1Spec.SignatureNormalizeRun | base-asymmetric-encryption/src/iosMain/kotlin/io/iohk/atala/prism/apollo/secp256k1/Secp256k1.kt:114-121 | Fewer than 64 bytes throw. A signature that does not parse throws with the parse's calls. Otherwise the calls are the parse, the normalization and the serialization. The result is Ok exactly when the serialization succeeds, whatever normalize returned. Then the bytes are the 64-byte compact form of the normalized signature, and the flag is true exactly when normalize returned 1. |
| Secp256k1Spec.SecKeyVerifyRun | base-asymmetric-encryption/src/iosMain/kotlin/io/iohk/atala/prism/apollo/secp256k1/Secp256k1.kt:123-129 | Any length other than 32 gives false with no call. Otherwise the result is true exactly when the library's status is 1. It never throws. |
| Secp256k1Spec.PubkeyCreateRun | base-asymmetric-encryption/src/iosMain/kotlin/io/iohk/atala/prism/apollo/secp256k1/Secp256k1.kt:131-139 | A key other than 32 bytes throws. The calls are pubkey_create and, when it succeeds, one uncompressed serialization. The result is Ok exactly when both statuses are 1, and is then the serialization (at most 65 bytes) of the key created. |
| Secp256k1Spec.PubkeyParseRun | base-asymmetric-encryption/src/iosMain/kotlin/io/iohk/atala/prism/apollo/secp256k1/Secp256k1.kt:141-147 | A length other than 33/65 throws. The calls are the parse and, when it succeeds, one uncompressed serialization. The result is Ok exactly when both statuses are 1, and is then the uncompressed re-serialization of the key parsed. |
| Secp256k1Spec.PrivKeyNegateRun | base-asymmetric-encryption/src/iosMain/kotlin/io/iohk/atala/prism/apollo/secp256k1/Secp256k1.kt:149-157 | A key other than 32 bytes throws. Otherwise there is one negate call. The result is Ok exactly when its status is 1, and is then the 32 bytes the library wrote over the copy. |
| Secp256k1Spec.PrivKeyTweakScoped | base-asymmetric-encryption/src/iosMain/kotlin/io/iohk/atala/prism/apollo/secp256k1/Secp256k1.kt:161-171 | An empty tweak throws IndexOutOfBounds before any call. Otherwise there is one tweak call. The result is Ok exactly when its status is 1, and is then the 32 bytes it wrote. |
| Secp256k1Spec.PrivKeyTweakRunAsWritten | base-asymmetric-encryption/src/iosMain/kotlin/io/iohk/atala/prism/apollo/secp256k1/Secp256k1.kt:159-187 | As the source writes it, only the key's length is checked. |
| Secp256k1Spec.PrivKeyTweakRun | base-asymmetric-encryption/src/iosMain/kotlin/io/iohk/atala/prism/apollo/secp256k1/Secp256k1.kt:159-187 | Corrected: a key or tweak other than 32 bytes throws. Otherwise it agrees with the as-written version, making one tweak call. The result is 32 bytes. |
| Secp256k1Spec.PubKeyNegateRun | base-asymmetric-encryption/src/iosMain/kotlin/io/iohk/atala/prism/apollo/secp256k1/Secp256k1.kt:189-196 | A key other than 33/65 bytes throws. A key that does not parse throws with the parse's calls. Otherwise the calls are the parse, the negation and, when it succeeds, one serialization. The result is Ok exactly when both statuses are 1, and is then the serialization of the negated key. |
| Secp256k1Spec.PubKeyTweakScoped | base-asymmetric-encryption/src/iosMain/kotlin/io/iohk/atala/prism/apollo/secp256k1/Secp256k1.kt:200-209 | A key that does not parse throws with the parse's calls; an empty tweak then throws IndexOutOfBounds. Otherwise the calls are the parse, the tweak and, when it succeeds, one serialization. The result is Ok exactly when both statuses are 1, and is then the serialization (at most 65 bytes) of the tweaked key. |
| Secp256k1Spec.PubKeyTweakRunAsWritten | base-asymmetric-encryption/src/iosMain/kotlin/io/iohk/atala/prism/apollo/secp256k1/Secp256k1.kt:198-224 | As written, only the key's length (33/65) is checked. |
| Secp256k1Spec.PubKeyTweakRun | base-asymmetric-encryption/src/iosMain/kotlin/io/iohk/atala/prism/apollo/secp256k1/Secp256k1.kt:198-224 | Corrected: the tweak must also be 32 bytes. Otherwise it agrees with the as-written version: the parse, the tweak call and the serialization, Ok exactly when the statuses are 1, with the tweaked key's serialization as the result. |
| Secp256k1Spec.TweakReadsPastBuffer | base-asymmetric-encryption/src/iosMain/kotlin/io/iohk/atala/prism/apollo/secp256k1/Secp256k1.kt:159-224 | A tweak of 1 to 31 bytes gets through the source's checks, and the library call made with it reads past its buffer, in both the private-key and the public-key tweaks. |
| Secp256k1Spec.TweaksStayInBounds | base-asymmetric-encryption/src/iosMain/kotlin/io/iohk/atala/prism/apollo/secp256k1/Secp256k1.kt:159-224 | With the tweak's length checked, every call the tweaks make stays within its buffers. |
| Secp256k1Spec.PubKeyTweakStaysInBounds | base-asymmetric-encryption/src/iosMain/kotlin/io/iohk/atala/prism/apollo/secp256k1/Secp256k1.kt:198-224 | Every call of the corrected public-key tweak stays within its buffers: the parse, the tweak and the serialization. |
| Secp256k1Spec.ParseAllRun | base-asymmetric-encryption/src/iosMain/kotlin/io/iohk/atala/prism/apollo/secp256k1/Secp256k1.kt:229 | `map { allocPublicKey(it) }` succeeds exactly when every key parses. It then makes one parse call per key, in order, and yields each key's parse in its place. It never makes more calls than there are keys. |
| Secp256k1Spec.ParseAllExtend | base-asymmetric-encryption/src/iosMain/kotlin/io/iohk/atala/prism/apollo/secp256k1/Secp256k1.kt:229 | Parsing one more key extends a successful prefix by that key's parse, or stops with its error. |
| Secp256k1Spec.ParseAllStops | base-asymmetric-encryption/src/iosMain/kotlin/io/iohk/atala/prism/apollo/secp256k1/Secp256k1.kt:229 | Once a prefix fails to parse, no later key is looked at. |
| Secp256k1Spec.PubKeyCombineRun | base-asymmetric-encryption/src/iosMain/kotlin/io/iohk/atala/prism/apollo/secp256k1/Secp256k1.kt:226-236 | Every element's length is checked before anything is parsed. A failed parse throws with the parse calls made so far. Otherwise the calls are the parses, the combine with all keys and their count, and, when it succeeds, one serialization. The result is Ok exactly when both statuses are 1, and is then the serialization of the combined key. |
| Secp256k1Spec.EcdhRun | base-asymmetric-encryption/src/iosMain/kotlin/io/iohk/atala/prism/apollo/secp256k1/Secp256k1.kt:238-248 | The key sizes are checked first. A public key that does not parse throws. Otherwise the calls are the parse and the ECDH call. The result is Ok exactly when the ECDH status is 1, and is then the 32 bytes it wrote. |
| Secp256k1Spec.EcdsaRecoverRun | base-asymmetric-encryption/src/iosMain/kotlin/io/iohk/atala/prism/apollo/secp256k1/Secp256k1.kt:250-272 | The signature (64 bytes) and message (32 bytes) are checked first. The calls are the recoverable parse with the recovery id, then, while the statuses are 1, the recovery and one serialization. The result is Ok exactly when all three statuses are 1, and is then the serialization of the recovered key. |
| Secp256k1Spec.Compact2derRun | base-asymmetric-encryption/src/iosMain/kotlin/io/iohk/atala/prism/apollo/secp256k1/Secp256k1.kt:274-289 | A signature other than 64 bytes throws. The calls are the compact parse and, when it succeeds, a DER serialization into 73 bytes. The result is Ok exactly when both statuses are 1, and is then the written prefix, at most 73 bytes. |
| Secp256k1Spec.VerifySchnorrRun | base-asymmetric-encryption/src/iosMain/kotlin/io/iohk/atala/prism/apollo/secp256k1/Secp256k1.kt:291-303 | The signature (64), data (32) and x-only key (32) are checked. The result is Ok exactly when the key parses. It is true exactly when the Schnorr verify status is 1, with the message length passed as 32. |
| Secp256k1Spec.SignSchnorrRun | base-asymmetric-encryption/src/iosMain/kotlin/io/iohk/atala/prism/apollo/secp256k1/Secp256k1.kt:305-325 | The secret is 32 bytes, the data is 32 bytes, and the auxiliary randomness, when present, is 32 bytes. The calls are keypair_create and, when it succeeds, the signing call. The result is Ok exactly when both statuses are 1, and is then the 64 bytes signed. |
| Secp256k1Ios.Secp256k1.ToNat | base-asymmetric-encryption/src/iosMain/kotlin/io/iohk/atala/prism/apollo/secp256k1/Secp256k1.kt:77-82 | It pins the array (appending its contents to the block, with its unpin deferred), and only then takes the address of element 0, which throws IndexOutOfBounds for an empty array. The pointer it returns is a pin holding the array's contents. |
| Secp256k1Ios.Secp256k1.PinOptional | base-asymmetric-encryption/src/iosMain/kotlin/io/iohk/atala/prism/apollo/secp256k1/Secp256k1.kt:312 | The optional array is pinned, and its one pointer is a pin holding its contents, only when present. For `null` there is no pointer and nothing is pinned. |
| Secp256k1Ios.Secp256k1.Close | base-asymmetric-encryption/src/iosMain/kotlin/io/iohk/atala/prism/apollo/secp256k1/Secp256k1.kt:77-82 | Running the deferred unpins at the end of the block leaves nothing pinned. |
| Secp256k1Ios.CopyOf | base-asymmetric-encryption/src/iosMain/kotlin/io/iohk/atala/prism/apollo/secp256k1/Secp256k1.kt:151 | `copyOf` is a fresh array with the same contents. |
| Secp256k1Ios.Secp256k1.constructor | base-asymmetric-encryption/src/iosMain/kotlin/io/iohk/atala/prism/apollo/secp256k1/Secp256k1.kt:21-24 | The object starts with no context, no calls and no open block, and `Valid` holds. |
| Secp256k1Ios.Secp256k1.Invoke | base-asymmetric-encryption/src/iosMain/kotlin/io/iohk/atala/prism/apollo/secp256k1/Secp256k1.kt:21-24 | A library call may only be given, for each byte array it reads and in argument order, a pointer whose pin holds exactly that argument (`Live`), and only arguments it reads within (`ReadsInBounds`). It creates the lazy context on first use (with TYPE_CONTEXT, SIGN and VERIFY), keeps `Valid`, appends exactly that call, and leaves the block as it was. |
| Secp256k1Ios.Secp256k1.AllocSignature | base-asymmetric-encryption/src/iosMain/kotlin/io/iohk/atala/prism/apollo/secp256k1/Secp256k1.kt:28-39 | Returns and calls exactly as ParseSignatureRun says. |
| Secp256k1Ios.Secp256k1.SerializeSignature | base-asymmetric-encryption/src/iosMain/kotlin/io/iohk/atala/prism/apollo/secp256k1/Secp256k1.kt:41-49 | Returns and calls exactly as SerializeSignatureRun says. |
| Secp256k1Ios.Secp256k1.AllocPublicKey | base-asymmetric-encryption/src/iosMain/kotlin/io/iohk/atala/prism/apollo/secp256k1/Secp256k1.kt:51-61 | Returns and calls exactly as ParsePubkeyRun says. |
| Secp256k1Ios.Secp256k1.SerializePubkey | base-asymmetric-encryption/src/iosMain/kotlin/io/iohk/atala/prism/apollo/secp256k1/Secp256k1.kt:63-75 | Returns and calls exactly as SerializePubkeyRun says. |
| Secp256k1Ios.Secp256k1.Verify | base-asymmetric-encryption/src/iosMain/kotlin/io/iohk/atala/prism/apollo/secp256k1/Secp256k1.kt:84-93 | Keeps `Valid`, ends with nothing pinned (`Idle`), and returns and calls exactly as VerifyRun says. |
| Secp256k1Ios.Secp256k1.Sign | base-asymmetric-encryption/src/iosMain/kotlin/io/iohk/atala/prism/apollo/secp256k1/Secp256k1.kt:95-112 | Keeps `Valid`, ends with nothing pinned (`Idle`), and returns and calls exactly as SignRun says. |
| Secp256k1Ios.Secp256k1.SignatureNormalize | base-asymmetric-encryption/src/iosMain/kotlin/io/iohk/atala/prism/apollo/secp256k1/Secp256k1.kt:114-121 | Keeps `Valid`, ends with nothing pinned (`Idle`), and returns and calls exactly as SignatureNormalizeRun says. |
| Secp256k1Ios.Secp256k1.SecKeyVerify | base-asymmetric-encryption/src/iosMain/kotlin/io/iohk/atala/prism/apollo/secp256k1/Secp256k1.kt:123-129 | Keeps `Valid`, ends with nothing pinned (`Idle`), and returns and calls exactly as SecKeyVerifyRun says. |
| Secp256k1Ios.Secp256k1.PubkeyCreate | base-asymmetric-encryption/src/iosMain/kotlin/io/iohk/atala/prism/apollo/secp256k1/Secp256k1.kt:131-139 | Keeps `Valid`, ends with nothing pinned (`Idle`), and returns and calls exactly as PubkeyCreateRun says. |
| Secp256k1Ios.Secp256k1.PubkeyParse | base-asymmetric-encryption/src/iosMain/kotlin/io/iohk/atala/prism/apollo/secp256k1/Secp256k1.kt:141-147 | Keeps `Valid`, ends with nothing pinned (`Idle`), and returns and calls exactly as PubkeyParseRun says. |
| Secp256k1Ios.Secp256k1.PrivKeyNegate | base-asymmetric-encryption/src/iosMain/kotlin/io/iohk/atala/prism/apollo/secp256k1/Secp256k1.kt:149-157 | Returns a fresh array holding PrivKeyNegateRun's result and makes its calls. The caller's array is outside `modifies`, so it is unchanged. It ends with nothing pinned. |
| Secp256k1Ios.Secp256k1.PrivKeyTweak | base-asymmetric-encryption/src/iosMain/kotlin/io/iohk/atala/prism/apollo/secp256k1/Secp256k1.kt:159-187 | Returns a fresh array holding PrivKeyTweakRun's result and makes its calls. Neither argument changes. It ends with nothing pinned. |
| Secp256k1Ios.Secp256k1.PrivKeyTweakAdd | base-asymmetric-encryption/src/iosMain/kotlin/io/iohk/atala/prism/apollo/secp256k1/Secp256k1.kt:159-172 | PrivKeyTweak with addition. |
| Secp256k1Ios.Secp256k1.PrivKeyTweakMul | base-asymmetric-encryption/src/iosMain/kotlin/io/iohk/atala/prism/apollo/secp256k1/Secp256k1.kt:174-187 | PrivKeyTweak with multiplication. |
| Secp256k1Ios.Secp256k1.PubKeyNegate | base-asymmetric-encryption/src/iosMain/kotlin/io/iohk/atala/prism/apollo/secp256k1/Secp256k1.kt:189-196 | Keeps `Valid`, ends with nothing pinned (`Idle`), and returns and calls exactly as PubKeyNegateRun says. |
| Secp256k1Ios.Secp256k1.PubKeyTweak | base-asymmetric-encryption/src/iosMain/kotlin/io/iohk/atala/prism/apollo/secp256k1/Secp256k1.kt:198-224 | Keeps `Valid`, ends with nothing pinned (`Idle`), and returns and calls exactly as PubKeyTweakRun says. |
| Secp256k1Ios.Secp256k1.PubKeyTweakAdd | base-asymmetric-encryption/src/iosMain/kotlin/io/iohk/atala/prism/apollo/secp256k1/Secp256k1.kt:198-210 | PubKeyTweak with addition. |
| Secp256k1Ios.Secp256k1.PubKeyTweakMul | base-asymmetric-encryption/src/iosMain/kotlin/io/iohk/atala/prism/apollo/secp256k1/Secp256k1.kt:212-224 | PubKeyTweak with multiplication. |
| Secp256k1Ios.Secp256k1.ParseKeys | base-asymmetric-encryption/src/iosMain/kotlin/io/iohk/atala/prism/apollo/secp256k1/Secp256k1.kt:229 | The loop over the keys returns and calls exactly as ParseAllRun says on their contents. |
| Secp256k1Ios.Secp256k1.PubKeyCombine | base-asymmetric-encryption/src/iosMain/kotlin/io/iohk/atala/prism/apollo/secp256k1/Secp256k1.kt:226-236 | Keeps `Valid`, ends with nothing pinned (`Idle`), and returns and calls exactly as PubKeyCombineRun says. |
| Secp256k1Ios.Secp256k1.Ecdh | base-asymmetric-encryption/src/iosMain/kotlin/io/iohk/atala/prism/apollo/secp256k1/Secp256k1.kt:238-248 | Keeps `Valid`, ends with nothing pinned (`Idle`), and returns and calls exactly as EcdhRun says. |
| Secp256k1Ios.Secp256k1.EcdsaRecover | base-asymmetric-encryption/src/iosMain/kotlin/io/iohk/atala/prism/apollo/secp256k1/Secp256k1.kt:250-272 | Keeps `Valid`, ends with nothing pinned (`Idle`), and returns and calls exactly as EcdsaRecoverRun says. |
| Secp256k1Ios.Secp256k1.Compact2der | base-asymmetric-encryption/src/iosMain/kotlin/io/iohk/atala/prism/apollo/secp256k1/Secp256k1.kt:274-289 | Keeps `Valid`, ends with nothing pinned (`Idle`), and returns and calls exactly as Compact2derRun says. |
| Secp256k1Ios.Secp256k1.VerifySchnorr | base-asymmetric-encryption/src/iosMain/kotlin/io/iohk/atala/prism/apollo/secp256k1/Secp256k1.kt:291-303 | Keeps `Valid`, ends with nothing pinned (`Idle`), and returns and calls exactly as VerifySchnorrRun says. |
| Secp256k1Ios.Secp256k1.SignSchnorr | base-asymmetric-encryption/src/iosMain/kotlin/io/iohk/atala/prism/apollo/secp256k1/Secp256k1.kt:305-325 | Keeps `Valid`, ends with nothing pinned (`Idle`), and returns and calls exactly as SignSchnorrRun says. |
| Secp256k1Ios.Secp256k1.Cleanup | base-asymmetric-encryption/src/iosMain/kotlin/io/iohk/atala/prism/apollo/secp256k1/Secp256k1.kt:327-329 | The context ends destroyed, and a destroy call is appended. |
| JvmSecp256k1Lib.CreatePublicKey | apollo/src/jvmMain/kotlin/io/iohk/atala/prism/apollo/secp256k1/Secp256k1Lib.kt:11-21 | A failed creation propagates. A key that fails validation throws "invalid public key". A valid key is returned as created, or compressed when asked. |
| JvmSecp256k1Lib.CompressedFlag | apollo/src/jvmMain/kotlin/io/iohk/atala/prism/apollo/secp256k1/Secp256k1Lib.kt:11-21 | The flag only decides compression: the compressed key is `pubKeyCompress` of the uncompressed one, and both calls fail alike. |
| JvmSecp256k1Lib.DerivePrivateKey | apollo/src/jvmMain/kotlin/io/iohk/atala/prism/apollo/secp256k1/Secp256k1Lib.kt:30-35 | The result is exactly the binding's `privKeyTweakAdd` of the two arguments in order. |
| JvmSecp256k1Lib.Sign | apollo/src/jvmMain/kotlin/io/iohk/atala/prism/apollo/secp256k1/Secp256k1Lib.kt:44-48 | The data is hashed first. The digest is signed, and the compact signature is converted to DER; a signing failure propagates. |
| JvmSecp256k1Lib.Verify | apollo/src/jvmMain/kotlin/io/iohk/atala/prism/apollo/secp256k1/Secp256k1Lib.kt:58-65 | The caller's (publicKey, signature, data) become the binding's (signature, SHA-256(data), publicKey). |
| JvmSecp256k1Lib.DataOnlyThroughDigest | apollo/src/jvmMain/kotlin/io/iohk/atala/prism/apollo/secp256k1/Secp256k1Lib.kt:44-65 | Two inputs with the same digest give the same signature and the same verdict. |
| JvmSecp256k1Lib.UncompressPublicKey | apollo/src/jvmMain/kotlin/io/iohk/atala/prism/apollo/secp256k1/Secp256k1Lib.kt:73-75 | The result is exactly the binding's `pubkeyParse`. |
| JvmSecp256k1Lib.CompressPublicKey | apollo/src/jvmMain/kotlin/io/iohk/atala/prism/apollo/secp256k1/Secp256k1Lib.kt:83-85 | The result is exactly the binding's `pubKeyCompress`. |
| JvmSecp256k1Lib.OverIos | apollo/src/jvmMain/kotlin/io/iohk/atala/prism/apollo/secp256k1/Secp256k1Lib.kt:3 | A binding that behaves as the iOS object's code is written: its tweak is the as-written one, which checks only the key's length. Compression is kept as a parameter. |
| JvmSecp256k1Lib.SignOverIos | apollo/src/jvmMain/kotlin/io/iohk/atala/prism/apollo/secp256k1/Secp256k1Lib.kt:44-48 | Over that binding, a signature is at most 73 DER bytes. A private key other than 32 bytes throws IllegalArgument. |
| JvmSecp256k1Lib.DeriveOverIos | apollo/src/jvmMain/kotlin/io/iohk/atala/prism/apollo/secp256k1/Secp256k1Lib.kt:30-35 | Over that binding, a derived key is 32 bytes. A private key other than 32 bytes throws IllegalArgument, and an empty derived key throws IndexOutOfBounds. Any other derived key reaches the library, and the result is Ok exactly when the library's tweak succeeds. |
| JvmSecp256k1Lib.VerifyOverIos | apollo/src/jvmMain/kotlin/io/iohk/atala/prism/apollo/secp256k1/Secp256k1Lib.kt:58-75 | Over that binding, the digest always fits, so verify throws IllegalArgument exactly when the public key has the wrong size. An uncompressed key is at most 65 bytes. |
| AppleEcdh.Ecdh | apollo/src/appleMain/kotlin/org/hyperledger/identus/apollo/secp256k1/ECDH.kt:14-18 | The native call is made exactly when the private key is 32 bytes and the public key 33 or 65 bytes. It gets the caller's arguments in order, and what it returns or throws comes back untouched. A failed check throws IllegalArgument. |
| AppleEcdh.SameGateAsIos | apollo/src/appleMain/kotlin/org/hyperledger/identus/apollo/secp256k1/ECDH.kt:15-16 | The Apple checks reject exactly the key sizes for which the iOS object's ECDH throws IllegalArgument before any library call. |
| JsExtendedKey.GetPath | base-asymmetric-encryption/src/jsMain/kotlin/io/iohk/atala/prism/apollo/derivation/ExtendedKey.kt:9-15 | `path()` is the path the key was built with. |
| JsExtendedKey.GetPrivateKey | base-asymmetric-encryption/src/jsMain/kotlin/io/iohk/atala/prism/apollo/derivation/ExtendedKey.kt:27-29 | Throws NullPointer when the node has no private key. Otherwise the result is `secp256k1FromBytes` of its bytes, including any exception it throws. |
| JsExtendedKey.GetPublicKey | base-asymmetric-encryption/src/jsMain/kotlin/io/iohk/atala/prism/apollo/derivation/ExtendedKey.kt:20-22 | Succeeds exactly when `privateKey()` does, failing with its exception. On success it is `getPublicKey` of that private key. |
| JsExtendedKey.GetKeyPair | base-asymmetric-encryption/src/jsMain/kotlin/io/iohk/atala/prism/apollo/derivation/ExtendedKey.kt:34-36 | Succeeds exactly when `privateKey()` does, and then pairs `privateKey()` with `publicKey()`, the public key of that private key. |
| JsExtendedKey.Derive | base-asymmetric-encryption/src/jsMain/kotlin/io/iohk/atala/prism/apollo/derivation/ExtendedKey.kt:41-48 | The child node is `deriveHardened(number)` exactly when the axis is hardened, and `derive(number)` otherwise. The derivation succeeds exactly when that call does, and otherwise fails with its exception. The child path is `path.derive(axis)`. |
| JsExtendedKey.NodeIgnoresPath | base-asymmetric-encryption/src/jsMain/kotlin/io/iohk/atala/prism/apollo/derivation/ExtendedKey.kt:41-48 | Along any axes, whether derivation succeeds, the node reached and the failure do not depend on the starting path. |
| JsExtendedKey.PathIgnoresNode | base-asymmetric-encryption/src/jsMain/kotlin/io/iohk/atala/prism/apollo/derivation/ExtendedKey.kt:41-48 | Along any axes, when both derivations succeed, the path reached does not depend on the starting node. |
| JsExtendedKey.DeriveAlongAppend | base-asymmetric-encryption/src/jsMain/kotlin/io/iohk/atala/prism/apollo/derivation/ExtendedKey.kt:41-48 | Deriving along `a + b` is deriving along `a`, then along `b`; a failure along `a` is the failure of the whole. |
| JsExtendedKey.PathRecordsAxes | base-asymmetric-encryption/src/jsMain/kotlin/io/iohk/atala/prism/apollo/derivation/ExtendedKey.kt:47 | When the path's `derive` appends, a successful derivation ends at the start path followed by exactly the axes taken. |
| Base64Ext.Count | Base64/src/commonMain/kotlin/io.iohk.atala.prism.apollo.base64/StringExt.kt:18 | `count { }` is at most the length, and zero exactly when no element matches. |
| Base64Ext.DropLast | Base64/src/commonMain/kotlin/io.iohk.atala.prism.apollo.base64/StringExt.kt:18 | `dropLast(n)` is the prefix of length `size - n`, or empty when `n` exceeds the size. |
| Base64Ext.ToChars | Base64/src/commonMain/kotlin/io.iohk.atala.prism.apollo.base64/StringExt.kt:16-17 | One character per byte, each the byte's `toChar()`. |
| Base64Ext.ZeroTrim | Base64/src/commonMain/kotlin/io.iohk.atala.prism.apollo.base64/StringExt.kt:29-32 | Removes as many trailing bytes as there are zero bytes anywhere in the list. |
| Base64Ext.Base64Decoded | Base64/src/commonMain/kotlin/io.iohk.atala.prism.apollo.base64/StringExt.kt:15-18 | The decoded bytes as characters, less one trailing character per `'='` in the input. |
| Base64Ext.Base64DecodedBytes | Base64/src/commonMain/kotlin/io.iohk.atala.prism.apollo.base64/StringExt.kt:24-33 | A prefix of the decoded bytes. Its length is the decoded length less the `'='` count (floored at 0), less the number of zero bytes left. |
| Base64Ext.Base64PadDecodedBytes | Base64/src/commonMain/kotlin/io.iohk.atala.prism.apollo.base64/StringExt.kt:54-57 | A prefix of the decoded bytes, shorter by exactly the `'='` count (floored at 0), with no zero trim. |
| Base64Ext.Base64UrlDecodedBytes | Base64/src/commonMain/kotlin/io.iohk.atala.prism.apollo.base64/StringExt.kt:79-88 | As Base64DecodedBytes, except that the first trim counts `'='` and NUL characters. |
| Base64Ext.Base64UrlPadDecodedBytes | Base64/src/commonMain/kotlin/io.iohk.atala.prism.apollo.base64/StringExt.kt:110-113 | A prefix of the decoded bytes, shorter by exactly the `'='` count (floored at 0). |
| Base64Ext.DecodedBytesArePrefixes | Base64/src/commonMain/kotlin/io.iohk.atala.prism.apollo.base64/StringExt.kt:24-113 | Every byte getter returns a prefix of the decoder's output, never longer than it. |
| Base64Ext.NothingToTrim | Base64/src/commonMain/kotlin/io.iohk.atala.prism.apollo.base64/StringExt.kt:24-113 | Input without `'='` or NUL keeps the padded outputs whole, and the unpadded ones too when no byte is zero. |
| Base64Ext.ZeroTrimLosesData | Base64/src/commonMain/kotlin/io.iohk.atala.prism.apollo.base64/StringExt.kt:29-32 | For "AEE" (bytes 00 41), `base64DecodedBytes` returns only the first byte; the corrected getter keeps both. |
| Base64Ext.TrimTrailingZeros | Base64/src/commonMain/kotlin/io.iohk.atala.prism.apollo.base64/StringExt.kt:29-32 | Corrected trim: the longest prefix that does not end in a zero byte; only zero bytes are removed. |
| Base64Ext.Base64DecodedBytesTrimmed | Base64/src/commonMain/kotlin/io.iohk.atala.prism.apollo.base64/StringExt.kt:24-33 | Corrected getter: a prefix of the `'='`-trimmed bytes, ending in a non-zero byte when non-empty. Everything it drops after the `'='` trim is a zero byte. |
| Base64Ext.Base64UrlDecodedBytesTrimmed | Base64/src/commonMain/kotlin/io.iohk.atala.prism.apollo.base64/StringExt.kt:79-88 | The same correction for the URL-safe getter, after its `'='`/NUL trim. |
| Base64Ext.TrimsAgreeOnTrailingZeros | Base64/src/commonMain/kotlin/io.iohk.atala.prism.apollo.base64/StringExt.kt:29-32 | When every zero byte is part of the trailing run of zeros, the source's trim and the corrected one agree. |

## Left out

- The curve mathematics is not modelled. `Lib` has uninterpreted entry points, so a valid scalar, a point on the curve, and what signing, recovery and ECDH compute all stay abstract.
- The memory model is simplified. Native memory, pointers and `alloc` are values: each out-structure is the value the library writes. A pin is named by its place in the block and holds the array's contents when it was pinned; the deferred unpins are only the block's end.
- Secp256k1Ios.Secp256k1.PrivKeyTweak, Secp256k1Ios.Secp256k1.PrivKeyTweakAdd, Secp256k1Ios.Secp256k1.PrivKeyTweakMul, Secp256k1Ios.Secp256k1.PubKeyTweak, Secp256k1Ios.Secp256k1.PubKeyTweakAdd and Secp256k1Ios.Secp256k1.PubKeyTweakMul follow the corrected tweaks of the findings below, so they also throw IllegalArgument for a tweak longer than 32 bytes. The source passes such a tweak on, and the library reads only its first 32 bytes. That behaviour is kept only in `PrivKeyTweakRunAsWritten` and `PubKeyTweakRunAsWritten`.
- Context creation is assumed to succeed. Its failure (`error("Could not create secp256k1 context")`) is not modelled.
- Operations after `cleanup` are not covered. Their preconditions require `Valid`, which `Cleanup` gives up: the source keeps using a destroyed context.
- Thread safety of the lazy context is not modelled.
- The ACINQ binding's behaviour is abstract. `fr.acinq.secp256k1.Secp256k1`, SHA-256 and `Secp256k1Helper.validatePublicKey` are not part of this model; `JvmSecp256k1Lib.Env` takes them as parameters.
- `JvmSecp256k1Lib.DerivePrivateKey`: the nullable return type is kept as a result that can only be a value or an exception. The binding throws on failure and never returns null.
- `Secp256k1Native.ecdh` is a parameter of `AppleEcdh.Ecdh`. It returns the secret or throws.
- The external BIP-32 library, `DerivationPath`, `DerivationAxis`, `KMMECSecp256k1PrivateKey.secp256k1FromBytes` and `getPublicKey` are not part of this model. They are parameters of `JsExtendedKey.Env`, and private and public keys are their bytes. The node's `derive`, its `deriveHardened` and `secp256k1FromBytes` may throw.
- JsExtendedKey.Derive: `DerivationPath.derive` and `getPublicKey` are taken never to throw. Their code is not part of this model.
- `Base64.decode`, `Base64.encode` and UTF-8 decoding are parameters, because their internals are not shown. The decoder's elements are taken to be Kotlin `Byte`s (signed); where the code lists them, `toChar` sign-extends.
- `Base64Ext.Base64PadDecoded`, `Base64Ext.Base64UrlDecoded` and `Base64Ext.Base64UrlPadDecoded` carry no contract, because they only decode their byte getter's result as UTF-8.
- The `*Encoded` getters are not modelled, because each is a single call to the encoder.

## Findings

| source | as written | input that shows it | evidently intended | confidence | as-written member | corrected member |
|---|---|---|---|---|---|---|
| base-asymmetric-encryption/src/iosMain/kotlin/io/iohk/atala/prism/apollo/secp256k1/Secp256k1.kt:159-224 | `privKeyTweakAdd/Mul` and `pubKeyTweakAdd/Mul` check the key's size but never the tweak's, yet the library reads a 32-byte tweak through the pointer | a 32-byte private key (or a 33-byte public key that parses) with a 1-byte tweak | `require(tweak.size == 32)` next to the key check | not executed | Secp256k1Spec.TweakReadsPastBuffer | Secp256k1Spec.TweaksStayInBounds |
| Base64/src/commonMain/kotlin/io.iohk.atala.prism.apollo.base64/StringExt.kt:29-32 | `base64DecodedBytes` and `base64UrlDecodedBytes` drop one trailing byte per zero byte anywhere in the data | "AEE", which decodes to 00 41: the getter returns only 00 | strip trailing zero bytes only | not executed | Base64Ext.ZeroTrimLosesData | Base64Ext.Base64DecodedBytesTrimmed |

The iOS class uses the corrected tweaks (`PrivKeyTweakRun`, `PubKeyTweakRun`). Their length check keeps the class invariant that no call reads outside its buffers. `PrivKeyTweakRunAsWritten` and `PubKeyTweakRunAsWritten` keep the source's behaviour for comparison. The corrected gate asks for exactly 32 bytes, so it also rejects a tweak longer than 32 bytes, which the source passes on and the library reads only the first 32 of.
