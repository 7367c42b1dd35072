/** The JVM `Secp256k1Lib` class: compositions of calls to the ACINQ
    `Secp256k1` binding, SHA-256 and `Secp256k1Helper.validatePublicKey`. All
    three are parameters; each binding call returns a value or throws. */
module JvmSecp256k1Lib {
  import opened Kotlin
  import opened LibSecp256k1
  import opened Secp256k1Spec

  /** The entry points of `fr.acinq.secp256k1.Secp256k1` the class calls. */
  datatype Binding = Binding(
    pubkeyCreate: Bytes -> Result<Bytes>,
    pubKeyCompress: Bytes -> Result<Bytes>,
    privKeyTweakAdd: (Bytes, Bytes) -> Result<Bytes>,
    sign: (Bytes, Bytes) -> Result<Bytes>,
    compact2der: Bytes -> Result<Bytes>,
    verify: (Bytes, Bytes, Bytes) -> Result<bool>,
    pubkeyParse: Bytes -> Result<Bytes>
  )

  /** Everything the class depends on. */
  datatype Env = Env(secp: Binding, sha256: Bytes -> Bytes32, validatePublicKey: Bytes -> bool)

  /** `createPublicKey`: the created key, validated, and compressed on request. */
  function CreatePublicKey(env: Env, privateKey: Bytes, compressed: bool): (r: Result<Bytes>)
    ensures env.secp.pubkeyCreate(privateKey).Err? ==> r == env.secp.pubkeyCreate(privateKey)
    ensures env.secp.pubkeyCreate(privateKey).Ok? ==>
      var pubKey := env.secp.pubkeyCreate(privateKey).value;
      (!env.validatePublicKey(pubKey) ==> r == Err(Secp256k1Exception(InvalidPublicKey))) &&
      (env.validatePublicKey(pubKey) && compressed ==> r == env.secp.pubKeyCompress(pubKey)) &&
      (env.validatePublicKey(pubKey) && !compressed ==> r == Ok(pubKey))
  {
    var pubKey :- env.secp.pubkeyCreate(privateKey);
    if env.validatePublicKey(pubKey) then
      if compressed then env.secp.pubKeyCompress(pubKey) else Ok(pubKey)
    else
      Err(Secp256k1Exception(InvalidPublicKey))
  }

  /** `derivePrivateKey`: the derived bytes added to the key as a tweak. */
  function DerivePrivateKey(env: Env, privateKeyBytes: Bytes, derivedPrivateKeyBytes: Bytes): (r: Result<Bytes>)
    ensures r == env.secp.privKeyTweakAdd(privateKeyBytes, derivedPrivateKeyBytes)
  {
    env.secp.privKeyTweakAdd(privateKeyBytes, derivedPrivateKeyBytes)
  }

  /** `sign`: the compact signature of the data's SHA-256 digest, in DER. */
  function Sign(env: Env, privateKey: Bytes, data: Bytes): (r: Result<Bytes>)
    ensures env.secp.sign(env.sha256(data), privateKey).Err? ==> r == env.secp.sign(env.sha256(data), privateKey)
    ensures env.secp.sign(env.sha256(data), privateKey).Ok? ==>
      r == env.secp.compact2der(env.secp.sign(env.sha256(data), privateKey).value)
  {
    var sha := env.sha256(data);
    var compactSignature :- env.secp.sign(sha, privateKey);
    env.secp.compact2der(compactSignature)
  }

  /** `verify`: the caller's (publicKey, signature, data) become the binding's
      (signature, digest, publicKey). */
  function Verify(env: Env, publicKey: Bytes, signature: Bytes, data: Bytes): (r: Result<bool>)
    ensures r == env.secp.verify(signature, env.sha256(data), publicKey)
  {
    var sha := env.sha256(data);
    env.secp.verify(signature, sha, publicKey)
  }

  function UncompressPublicKey(env: Env, compressed: Bytes): (r: Result<Bytes>)
    ensures r == env.secp.pubkeyParse(compressed)
  {
    env.secp.pubkeyParse(compressed)
  }

  function CompressPublicKey(env: Env, uncompressed: Bytes): (r: Result<Bytes>)
    ensures r == env.secp.pubKeyCompress(uncompressed)
  {
    env.secp.pubKeyCompress(uncompressed)
  }

  // ---------------------------------------------------------------------------
  // Properties.

  /** The flag only decides whether the key is compressed: a compressed key is
      the compression of the uncompressed one, and either both calls fail in
      the same way before compression or neither does. */
  lemma CompressedFlag(env: Env, privateKey: Bytes)
    ensures var plain := CreatePublicKey(env, privateKey, false);
      (plain.Ok? ==> CreatePublicKey(env, privateKey, true) == env.secp.pubKeyCompress(plain.value)) &&
      (plain.Err? ==> CreatePublicKey(env, privateKey, true) == plain)
  {
  }

  /** Signing and verifying see the data only through its digest. */
  lemma DataOnlyThroughDigest(env: Env, privateKey: Bytes, publicKey: Bytes, signature: Bytes, data1: Bytes, data2: Bytes)
    requires env.sha256(data1) == env.sha256(data2)
    ensures Sign(env, privateKey, data1) == Sign(env, privateKey, data2)
    ensures Verify(env, publicKey, signature, data1) == Verify(env, publicKey, signature, data2)
  {
  }

  /** A binding that behaves as the iOS object's code is written, with the
      tweak's length unchecked (the object offers no compression of its own,
      so that stays a parameter). */
  function OverIos(lib: Lib, compress: Bytes -> Result<Bytes>): (b: Binding)
    ensures b.pubKeyCompress == compress
  {
    Binding(
      privateKey => PubkeyCreateRun(lib, privateKey).result,
      compress,
      (privateKey, tweak) => PrivKeyTweakRunAsWritten(lib, Add, privateKey, tweak).result,
      (message, privateKey) => SignRun(lib, message, privateKey).result,
      sig => Compact2derRun(lib, sig).result,
      (signature, message, publicKey) => VerifyRun(lib, signature, message, publicKey).result,
      pubkey => PubkeyParseRun(lib, pubkey).result)
  }

  /** Over the iOS object, a signature comes out as at most 73 DER bytes, and
      only a private key of 32 bytes gets that far. */
  lemma SignOverIos(lib: Lib, compress: Bytes -> Result<Bytes>, sha256: Bytes -> Bytes32, validate: Bytes -> bool,
                    privateKey: Bytes, data: Bytes)
    ensures var r := Sign(Env(OverIos(lib, compress), sha256, validate), privateKey, data);
      (r.Ok? ==> |privateKey| == 32 && |r.value| <= 73) &&
      (|privateKey| != 32 ==> r == Err(IllegalArgument))
  {
    var r := Sign(Env(OverIos(lib, compress), sha256, validate), privateKey, data);
    var compact := SignRun(lib, sha256(data), privateKey).result;
    if compact.Ok? {
      assert |compact.value| == 64;
      assert r == Compact2derRun(lib, compact.value).result;
    }
  }

  /** Over the iOS object, a derived key is 32 bytes; a private key other
      than 32 bytes is refused, and an empty derived key fails when its
      address is taken. A derived key of any other length reaches the
      library. */
  lemma DeriveOverIos(lib: Lib, compress: Bytes -> Result<Bytes>, sha256: Bytes -> Bytes32, validate: Bytes -> bool,
                      privateKeyBytes: Bytes, derivedPrivateKeyBytes: Bytes)
    ensures var r := DerivePrivateKey(Env(OverIos(lib, compress), sha256, validate), privateKeyBytes, derivedPrivateKeyBytes);
      (r.Ok? ==> |r.value| == 32) &&
      (|privateKeyBytes| != 32 ==> r == Err(IllegalArgument)) &&
      (|privateKeyBytes| == 32 && |derivedPrivateKeyBytes| == 0 ==> r == Err(IndexOutOfBounds)) &&
      (|privateKeyBytes| == 32 && |derivedPrivateKeyBytes| > 0 ==>
        (r.Ok? <==> lib.seckeyTweak(Add, privateKeyBytes, derivedPrivateKeyBytes).status == 1))
  {
  }

  /** Over the iOS object, the digest always has the size a message needs, so
      a verification is refused for its arguments only when the public key has
      the wrong size; an uncompressed key is at most 65 bytes. */
  lemma VerifyOverIos(lib: Lib, compress: Bytes -> Result<Bytes>, sha256: Bytes -> Bytes32, validate: Bytes -> bool,
                      publicKey: Bytes, signature: Bytes, data: Bytes)
    ensures var env := Env(OverIos(lib, compress), sha256, validate);
      (Verify(env, publicKey, signature, data) == Err(IllegalArgument) <==> !IsPubkeyLength(|publicKey|)) &&
      (UncompressPublicKey(env, publicKey).Ok? ==> |UncompressPublicKey(env, publicKey).value| <= 65)
  {
    var env := Env(OverIos(lib, compress), sha256, validate);
    if IsPubkeyLength(|publicKey|) {
      var run := VerifyRun(lib, signature, sha256(data), publicKey);
      var p := ParsePubkeyRun(lib, publicKey);
      assert p.result.Err? ==> p.result.error != IllegalArgument;
    }
  }
}
