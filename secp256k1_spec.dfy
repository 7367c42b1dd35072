/** What each operation of the iOS `Secp256k1` object computes, as pure
    functions of the library and the caller's bytes: the value returned or
    the exception thrown, and the library calls made on the way, in order.
    The class in Secp256k1Ios is proved to behave exactly as these say. */
module Secp256k1Spec {
  import opened Kotlin
  import opened LibSecp256k1

  /** The outcome of one operation together with the library calls it made. */
  datatype Run<+T> = Run(result: Result<T>, calls: seq<Call>)

  function Fail<T>(e: Exception, calls: seq<Call>): Run<T> {
    Run(Err(e), calls)
  }

  /** `Int.requireSuccess`: status 1 passes through, anything else throws. */
  function RequireSuccess(status: int, message: Reason): (r: Result<int>)
    ensures r.Ok? <==> status == 1
    ensures r.Ok? ==> r.value == status
    ensures r.Err? ==> r.error == Secp256k1Exception(message)
  {
    if status != 1 then Err(Secp256k1Exception(message)) else Ok(status)
  }

  /** The value a call wrote, provided `requireSuccess` accepts its status. */
  function Checked<T>(o: Out<T>, message: Reason, calls: seq<Call>): Run<T> {
    match RequireSuccess(o.status, message)
    case Ok(_) => Run(Ok(o.value), calls)
    case Err(e) => Fail(e, calls)
  }

  predicate IsPubkeyLength(n: int) {
    n == 33 || n == 65
  }

  predicate AllPubkeyLengths(pubkeys: seq<Bytes>) {
    forall i :: 0 <= i < |pubkeys| ==> IsPubkeyLength(|pubkeys[i]|)
  }

  // ---------------------------------------------------------------------------
  // Private helpers of the object: parsing and serializing native structures.

  /** `allocSignature`: pins the input (which throws for an empty array), then
      dispatches on its size. */
  function ParseSignatureRun(lib: Lib, input: Bytes): (r: Run<EcdsaSignature>)
    ensures |input| == 0 ==> r == Fail(IndexOutOfBounds, [])
    ensures 0 < |input| < 64 ==> r == Fail(Secp256k1Exception(UnknownSignatureFormat), [])
    ensures |input| == 64 ==>
      r.calls == [SignatureParseCompact(input)] &&
      (r.result.Ok? <==> lib.signatureParseCompact(input).status == 1) &&
      (r.result.Ok? ==> r.result.value == lib.signatureParseCompact(input).value)
    ensures |input| > 64 ==>
      r.calls == [SignatureParseDer(input, |input|)] &&
      (r.result.Ok? <==> lib.signatureParseDer(input, |input|).status == 1) &&
      (r.result.Ok? ==> r.result.value == lib.signatureParseDer(input, |input|).value)
    ensures r.calls != [] && r.result.Err? ==> r.result.error == Secp256k1Exception(CannotParseSignature(input))
  {
    if |input| == 0 then Fail(IndexOutOfBounds, [])
    else if |input| == 64 then
      Checked(lib.signatureParseCompact(input), CannotParseSignature(input), [SignatureParseCompact(input)])
    else if |input| < 64 then Fail(Secp256k1Exception(UnknownSignatureFormat), [])
    else
      Checked(lib.signatureParseDer(input, |input|), CannotParseSignature(input), [SignatureParseDer(input, |input|)])
  }

  /** `serializeSignature`: 64 compact bytes read back from the output buffer. */
  function SerializeSignatureRun(lib: Lib, sig: EcdsaSignature): (r: Run<Bytes>)
    ensures r.calls == [SignatureSerializeCompact(sig)]
    ensures r.result.Ok? <==> lib.signatureSerializeCompact(sig).status == 1
    ensures r.result.Ok? ==> r.result.value == lib.signatureSerializeCompact(sig).value && |r.result.value| == 64
  {
    Checked(lib.signatureSerializeCompact(sig), CallFailed("secp256k1_ecdsa_signature_serialize_compact() failed"),
            [SignatureSerializeCompact(sig)])
  }

  /** `allocPublicKey`: pins the input and parses it with its own length. */
  function ParsePubkeyRun(lib: Lib, pubkey: Bytes): (r: Run<Pubkey>)
    ensures |pubkey| == 0 ==> r == Fail(IndexOutOfBounds, [])
    ensures |pubkey| > 0 ==>
      r.calls == [PubkeyParse(pubkey, |pubkey|)] &&
      (r.result.Ok? <==> lib.pubkeyParse(pubkey, |pubkey|).status == 1)
    ensures r.result.Ok? ==> r.result.value == lib.pubkeyParse(pubkey, |pubkey|).value
    ensures |pubkey| > 0 && r.result.Err? ==> r.result.error == Secp256k1Exception(CallFailed("secp256k1_ec_pubkey_parse() failed"))
  {
    if |pubkey| == 0 then Fail(IndexOutOfBounds, [])
    else Checked(lib.pubkeyParse(pubkey, |pubkey|), CallFailed("secp256k1_ec_pubkey_parse() failed"),
                 [PubkeyParse(pubkey, |pubkey|)])
  }

  /** `serializePubkey`: always asks for the uncompressed form in a 65-byte
      buffer and returns as many bytes as the library reports writing. */
  function SerializePubkeyRun(lib: Lib, pubkey: Pubkey): (r: Run<Bytes>)
    ensures r.calls == [PubkeySerialize(pubkey, 65, SECP256K1_EC_UNCOMPRESSED)]
    ensures r.result.Ok? <==> Serializes(lib, pubkey)
    ensures r.result.Ok? ==> r.result.value == Uncompressed(lib, pubkey) && |r.result.value| <= 65
    ensures r.result.Err? ==> r.result.error == Secp256k1Exception(CallFailed("secp256k1_ec_pubkey_serialize() failed"))
  {
    var w := lib.pubkeySerialize(pubkey, SECP256K1_EC_UNCOMPRESSED);
    match RequireSuccess(w.status, CallFailed("secp256k1_ec_pubkey_serialize() failed"))
    case Ok(_) => Run(Ok(w.buf[..w.len]), [PubkeySerialize(pubkey, 65, SECP256K1_EC_UNCOMPRESSED)])
    case Err(e) => Fail(e, [PubkeySerialize(pubkey, 65, SECP256K1_EC_UNCOMPRESSED)])
  }

  /** Whether the library serializes a key successfully in uncompressed form. */
  predicate Serializes(lib: Lib, pubkey: Pubkey) {
    lib.pubkeySerialize(pubkey, SECP256K1_EC_UNCOMPRESSED).status == 1
  }

  /** The bytes the library reports writing when it serializes a key uncompressed. */
  function Uncompressed(lib: Lib, pubkey: Pubkey): Bytes {
    var w := lib.pubkeySerialize(pubkey, SECP256K1_EC_UNCOMPRESSED);
    w.buf[..w.len]
  }

  /** The call that serializes a key in `serializePubkey`. */
  function SerializeCall(pubkey: Pubkey): Call {
    PubkeySerialize(pubkey, 65, SECP256K1_EC_UNCOMPRESSED)
  }

  /** A call that leaves a public key in a native structure, followed by
      `requireSuccess` and `serializePubkey`. */
  function SerializeChecked(lib: Lib, o: Out<Pubkey>, message: Reason, before: seq<Call>): (r: Run<Bytes>)
    ensures |r.calls| >= |before| && r.calls[..|before|] == before
    ensures o.status != 1 ==> r == Fail(Secp256k1Exception(message), before)
    ensures o.status == 1 ==> r.calls == before + [SerializeCall(o.value)]
    ensures o.status == 1 ==> r.result == SerializePubkeyRun(lib, o.value).result
    ensures r.result.Ok? <==> o.status == 1 && Serializes(lib, o.value)
    ensures r.result.Ok? ==> r.result.value == Uncompressed(lib, o.value) && |r.result.value| <= 65
  {
    match RequireSuccess(o.status, message)
    case Err(e) => Fail(e, before)
    case Ok(_) =>
      var s := SerializePubkeyRun(lib, o.value);
      Run(s.result, before + s.calls)
  }

  // ---------------------------------------------------------------------------
  // Public operations.

  function VerifyRun(lib: Lib, signature: Bytes, message: Bytes, pubkey: Bytes): (r: Run<bool>)
    ensures !(|message| == 32 && IsPubkeyLength(|pubkey|)) ==> r == Fail(IllegalArgument, [])
    // a public key or signature that does not parse throws; it never reads as `false`
    ensures |message| == 32 && IsPubkeyLength(|pubkey|) ==>
      (r.result.Ok? <==> ParsePubkeyRun(lib, pubkey).result.Ok? && ParseSignatureRun(lib, signature).result.Ok?)
    ensures |message| == 32 && IsPubkeyLength(|pubkey|) ==>
      var p, s := ParsePubkeyRun(lib, pubkey), ParseSignatureRun(lib, signature);
      (p.result.Err? ==> r == Fail(p.result.error, p.calls)) &&
      (p.result.Ok? && s.result.Err? ==> r == Fail(s.result.error, p.calls + s.calls))
    ensures r.result.Ok? ==>
      var p := ParsePubkeyRun(lib, pubkey).result.value;
      var s := ParseSignatureRun(lib, signature).result.value;
      r.calls == ParsePubkeyRun(lib, pubkey).calls + ParseSignatureRun(lib, signature).calls + [EcdsaVerify(s, message, p)] &&
      (r.result.value <==> lib.ecdsaVerify(s, message, p) == 1)
  {
    if !(|message| == 32) || !IsPubkeyLength(|pubkey|) then Fail(IllegalArgument, [])
    else
      var p := ParsePubkeyRun(lib, pubkey);
      if p.result.Err? then Fail(p.result.error, p.calls)
      else
        var s := ParseSignatureRun(lib, signature);
        if s.result.Err? then Fail(s.result.error, p.calls + s.calls)
        else
          var status := lib.ecdsaVerify(s.result.value, message, p.result.value);
          Run(Ok(status == 1), p.calls + s.calls + [EcdsaVerify(s.result.value, message, p.result.value)])
  }

  function SignRun(lib: Lib, message: Bytes, privkey: Bytes): (r: Run<Bytes>)
    ensures !(|privkey| == 32 && |message| == 32) ==> r == Fail(IllegalArgument, [])
    ensures |privkey| == 32 && |message| == 32 ==>
      var o := lib.ecdsaSign(message, privkey);
      r.calls == [EcdsaSign(message, privkey)] + (if o.status == 1 then [SignatureSerializeCompact(o.value)] else []) &&
      (r.result.Ok? <==> o.status == 1 && lib.signatureSerializeCompact(o.value).status == 1)
    ensures r.result.Ok? ==> |r.result.value| == 64
    ensures r.result.Ok? ==>
      var o := lib.ecdsaSign(message, privkey);
      o.status == 1 && r.result.value == lib.signatureSerializeCompact(o.value).value
  {
    if |privkey| != 32 || |message| != 32 then Fail(IllegalArgument, [])
    else
      var o := lib.ecdsaSign(message, privkey);
      var signed := Checked(o, CallFailed("secp256k1_ecdsa_sign() failed"), [EcdsaSign(message, privkey)]);
      if signed.result.Err? then Fail(signed.result.error, signed.calls)
      else
        var s := SerializeSignatureRun(lib, o.value);
        Run(s.result, signed.calls + s.calls)
  }

  function SignatureNormalizeRun(lib: Lib, sig: Bytes): (r: Run<(Bytes, bool)>)
    ensures |sig| < 64 ==> r == Fail(IllegalArgument, [])
    // whether S was high never decides success: only the parse and the serialization can fail
    ensures |sig| >= 64 ==>
      var p := ParseSignatureRun(lib, sig);
      (p.result.Err? ==> r == Fail(p.result.error, p.calls)) &&
      (p.result.Ok? ==>
        var n := lib.signatureNormalize(p.result.value);
        r.calls == p.calls + [SignatureNormalize(p.result.value), SignatureSerializeCompact(n.value)] &&
        (r.result.Ok? <==> lib.signatureSerializeCompact(n.value).status == 1))
    ensures r.result.Ok? ==>
      var parsed := ParseSignatureRun(lib, sig).result;
      parsed.Ok? &&
      var n := lib.signatureNormalize(parsed.value);
      |r.result.value.0| == 64 &&
      r.result.value.0 == lib.signatureSerializeCompact(n.value).value &&
      (r.result.value.1 <==> n.status == 1)
  {
    if |sig| < 64 then Fail(IllegalArgument, [])
    else
      var p := ParseSignatureRun(lib, sig);
      if p.result.Err? then Fail(p.result.error, p.calls)
      else
        // the library reports through its status whether S was high; that is not an error
        var n := lib.signatureNormalize(p.result.value);
        var s := SerializeSignatureRun(lib, n.value);
        var calls := p.calls + [SignatureNormalize(p.result.value)] + s.calls;
        if s.result.Err? then Fail(s.result.error, calls)
        else Run(Ok((s.result.value, n.status == 1)), calls)
  }

  function SecKeyVerifyRun(lib: Lib, privkey: Bytes): (r: Run<bool>)
    ensures |privkey| != 32 ==> r == Run(Ok(false), [])
    ensures |privkey| == 32 ==> r.calls == [SeckeyVerify(privkey)]
    ensures r.result.Ok? && (r.result.value <==> |privkey| == 32 && lib.seckeyVerify(privkey) == 1)
  {
    if |privkey| != 32 then Run(Ok(false), [])
    else Run(Ok(lib.seckeyVerify(privkey) == 1), [SeckeyVerify(privkey)])
  }

  function PubkeyCreateRun(lib: Lib, privkey: Bytes): (r: Run<Bytes>)
    ensures |privkey| != 32 ==> r == Fail(IllegalArgument, [])
    ensures |privkey| == 32 ==>
      var o := lib.pubkeyCreate(privkey);
      r.calls == [PubkeyCreate(privkey)] + (if o.status == 1 then [SerializeCall(o.value)] else []) &&
      (r.result.Ok? <==> o.status == 1 && Serializes(lib, o.value))
    ensures r.result.Ok? ==>
      var o := lib.pubkeyCreate(privkey);
      r.result.value == Uncompressed(lib, o.value) && |r.result.value| <= 65
  {
    if |privkey| != 32 then Fail(IllegalArgument, [])
    else
      SerializeChecked(lib, lib.pubkeyCreate(privkey), CallFailed("secp256k1_ec_pubkey_create() failed"),
                       [PubkeyCreate(privkey)])
  }

  function PubkeyParseRun(lib: Lib, pubkey: Bytes): (r: Run<Bytes>)
    ensures !IsPubkeyLength(|pubkey|) ==> r == Fail(IllegalArgument, [])
    ensures IsPubkeyLength(|pubkey|) ==>
      var o := lib.pubkeyParse(pubkey, |pubkey|);
      r.calls == [PubkeyParse(pubkey, |pubkey|)] + (if o.status == 1 then [SerializeCall(o.value)] else []) &&
      (r.result.Ok? <==> o.status == 1 && Serializes(lib, o.value))
    ensures r.result.Ok? ==>
      var o := lib.pubkeyParse(pubkey, |pubkey|);
      r.result.value == Uncompressed(lib, o.value) && |r.result.value| <= 65
  {
    if !IsPubkeyLength(|pubkey|) then Fail(IllegalArgument, [])
    else
      SerializeChecked(lib, lib.pubkeyParse(pubkey, |pubkey|), CallFailed("secp256k1_ec_pubkey_parse() failed"),
                       [PubkeyParse(pubkey, |pubkey|)])
  }

  /** `privKeyNegate`: the library negates a copy of the key in place, and the copy is returned. */
  function PrivKeyNegateRun(lib: Lib, privkey: Bytes): (r: Run<Bytes>)
    ensures |privkey| != 32 ==> r == Fail(IllegalArgument, [])
    ensures |privkey| == 32 ==> r.calls == [SeckeyNegate(privkey)]
    ensures |privkey| == 32 ==> (r.result.Ok? <==> lib.seckeyNegate(privkey).status == 1)
    ensures r.result.Ok? ==> r.result.value == lib.seckeyNegate(privkey).value && |r.result.value| == 32
  {
    if |privkey| != 32 then Fail(IllegalArgument, [])
    else Checked(lib.seckeyNegate(privkey), CallFailed("secp256k1_ec_seckey_negate() failed"), [SeckeyNegate(privkey)])
  }

  function PrivTweakMessage(op: TweakOp): Reason {
    match op
    case Add => CallFailed("secp256k1_ec_seckey_tweak_add() failed")
    case Mul => CallFailed("secp256k1_ec_privkey_tweak_mul() failed")
  }

  function PubTweakMessage(op: TweakOp): Reason {
    match op
    case Add => CallFailed("secp256k1_ec_pubkey_tweak_add() failed")
    case Mul => CallFailed("secp256k1_ec_pubkey_tweak_mul() failed")
  }

  /** The `memScoped` block of `privKeyTweakAdd` / `privKeyTweakMul`: the copy
      of the key is pinned, then the tweak (which throws when it is empty). */
  function PrivKeyTweakScoped(lib: Lib, op: TweakOp, privkey: Bytes, tweak: Bytes): (r: Run<Bytes>)
    ensures |tweak| == 0 ==> r == Fail(IndexOutOfBounds, [])
    ensures |tweak| > 0 ==> r.calls == [SeckeyTweak(op, privkey, tweak)]
    ensures |tweak| > 0 ==> (r.result.Ok? <==> lib.seckeyTweak(op, privkey, tweak).status == 1)
    ensures r.result.Ok? ==> r.result.value == lib.seckeyTweak(op, privkey, tweak).value && |r.result.value| == 32
  {
    if |tweak| == 0 then Fail(IndexOutOfBounds, [])
    else Checked(lib.seckeyTweak(op, privkey, tweak), PrivTweakMessage(op), [SeckeyTweak(op, privkey, tweak)])
  }

  /** The private-key tweaks as the source writes them: only the key's length is checked. */
  function PrivKeyTweakRunAsWritten(lib: Lib, op: TweakOp, privkey: Bytes, tweak: Bytes): (r: Run<Bytes>)
    ensures |privkey| != 32 ==> r == Fail(IllegalArgument, [])
    ensures |privkey| == 32 ==> r == PrivKeyTweakScoped(lib, op, privkey, tweak)
  {
    if |privkey| != 32 then Fail(IllegalArgument, []) else PrivKeyTweakScoped(lib, op, privkey, tweak)
  }

  /** The private-key tweaks with the tweak's length checked as well. */
  function PrivKeyTweakRun(lib: Lib, op: TweakOp, privkey: Bytes, tweak: Bytes): (r: Run<Bytes>)
    ensures !(|privkey| == 32 && |tweak| == 32) ==> r == Fail(IllegalArgument, [])
    ensures |privkey| == 32 && |tweak| == 32 ==>
      r == PrivKeyTweakRunAsWritten(lib, op, privkey, tweak) && r.calls == [SeckeyTweak(op, privkey, tweak)]
    ensures r.result.Ok? ==> |r.result.value| == 32
  {
    if |privkey| != 32 || |tweak| != 32 then Fail(IllegalArgument, []) else PrivKeyTweakScoped(lib, op, privkey, tweak)
  }

  function PubKeyNegateRun(lib: Lib, pubkey: Bytes): (r: Run<Bytes>)
    ensures !IsPubkeyLength(|pubkey|) ==> r == Fail(IllegalArgument, [])
    ensures IsPubkeyLength(|pubkey|) ==>
      var p := ParsePubkeyRun(lib, pubkey);
      (p.result.Err? ==> r == Fail(p.result.error, p.calls)) &&
      (p.result.Ok? ==>
        var o := lib.pubkeyNegate(p.result.value);
        r.calls == p.calls + [PubkeyNegate(p.result.value)] + (if o.status == 1 then [SerializeCall(o.value)] else []) &&
        (r.result.Ok? <==> o.status == 1 && Serializes(lib, o.value)))
    ensures r.result.Ok? ==> |r.result.value| <= 65
    ensures r.result.Ok? ==>
      var p := ParsePubkeyRun(lib, pubkey).result;
      p.Ok? && r.result.value == Uncompressed(lib, lib.pubkeyNegate(p.value).value)
  {
    if !IsPubkeyLength(|pubkey|) then Fail(IllegalArgument, [])
    else
      var p := ParsePubkeyRun(lib, pubkey);
      if p.result.Err? then Fail(p.result.error, p.calls)
      else
        SerializeChecked(lib, lib.pubkeyNegate(p.result.value), CallFailed("secp256k1_ec_pubkey_negate() failed"),
                         p.calls + [PubkeyNegate(p.result.value)])
  }

  /** The `memScoped` block of `pubKeyTweakAdd` / `pubKeyTweakMul`. */
  function PubKeyTweakScoped(lib: Lib, op: TweakOp, pubkey: Bytes, tweak: Bytes): (r: Run<Bytes>)
    ensures var p := ParsePubkeyRun(lib, pubkey);
      (p.result.Err? ==> r == Fail(p.result.error, p.calls)) &&
      (p.result.Ok? && |tweak| == 0 ==> r == Fail(IndexOutOfBounds, p.calls)) &&
      (p.result.Ok? && |tweak| > 0 ==>
        var o := lib.pubkeyTweak(op, p.result.value, tweak);
        r.calls == p.calls + [PubkeyTweak(op, p.result.value, tweak)] + (if o.status == 1 then [SerializeCall(o.value)] else []) &&
        (r.result.Ok? <==> o.status == 1 && Serializes(lib, o.value)))
    ensures r.result.Ok? ==> |r.result.value| <= 65
    ensures r.result.Ok? ==>
      var p := ParsePubkeyRun(lib, pubkey).result;
      p.Ok? && r.result.value == Uncompressed(lib, lib.pubkeyTweak(op, p.value, tweak).value)
  {
    var p := ParsePubkeyRun(lib, pubkey);
    if p.result.Err? then Fail(p.result.error, p.calls)
    else if |tweak| == 0 then Fail(IndexOutOfBounds, p.calls)
    else
      SerializeChecked(lib, lib.pubkeyTweak(op, p.result.value, tweak), PubTweakMessage(op),
                       p.calls + [PubkeyTweak(op, p.result.value, tweak)])
  }

  /** The public-key tweaks as the source writes them: only the key's length is checked. */
  function PubKeyTweakRunAsWritten(lib: Lib, op: TweakOp, pubkey: Bytes, tweak: Bytes): (r: Run<Bytes>)
    ensures !IsPubkeyLength(|pubkey|) ==> r == Fail(IllegalArgument, [])
    ensures IsPubkeyLength(|pubkey|) ==> r == PubKeyTweakScoped(lib, op, pubkey, tweak)
  {
    if !IsPubkeyLength(|pubkey|) then Fail(IllegalArgument, []) else PubKeyTweakScoped(lib, op, pubkey, tweak)
  }

  /** The public-key tweaks with the tweak's length checked as well. */
  function PubKeyTweakRun(lib: Lib, op: TweakOp, pubkey: Bytes, tweak: Bytes): (r: Run<Bytes>)
    ensures !(IsPubkeyLength(|pubkey|) && |tweak| == 32) ==> r == Fail(IllegalArgument, [])
    ensures IsPubkeyLength(|pubkey|) && |tweak| == 32 ==> r == PubKeyTweakRunAsWritten(lib, op, pubkey, tweak)
    ensures IsPubkeyLength(|pubkey|) && |tweak| == 32 ==>
      var p := ParsePubkeyRun(lib, pubkey);
      (p.result.Err? ==> r == Fail(p.result.error, p.calls)) &&
      (p.result.Ok? ==>
        var o := lib.pubkeyTweak(op, p.result.value, tweak);
        r.calls == p.calls + [PubkeyTweak(op, p.result.value, tweak)] + (if o.status == 1 then [SerializeCall(o.value)] else []) &&
        (r.result.Ok? <==> o.status == 1 && Serializes(lib, o.value)))
    ensures r.result.Ok? ==> |r.result.value| <= 65
    ensures r.result.Ok? ==>
      var p := ParsePubkeyRun(lib, pubkey).result;
      p.Ok? && r.result.value == Uncompressed(lib, lib.pubkeyTweak(op, p.value, tweak).value)
  {
    if !IsPubkeyLength(|pubkey|) || |tweak| != 32 then Fail(IllegalArgument, [])
    else PubKeyTweakScoped(lib, op, pubkey, tweak)
  }

  /** A tweak of 1 to 31 bytes passes every check the source makes and reaches
      the library, which reads 32 bytes through it. */
  lemma TweakReadsPastBuffer(lib: Lib, op: TweakOp, privkey: Bytes, pubkey: Bytes, tweak: Bytes)
    requires |privkey| == 32 && IsPubkeyLength(|pubkey|) && 0 < |tweak| < 32
    ensures !AllInBounds(PrivKeyTweakRunAsWritten(lib, op, privkey, tweak).calls)
    ensures ParsePubkeyRun(lib, pubkey).result.Ok? ==> !AllInBounds(PubKeyTweakRunAsWritten(lib, op, pubkey, tweak).calls)
  {
    assert !ReadsInBounds(PrivKeyTweakRunAsWritten(lib, op, privkey, tweak).calls[0]);
    var p := ParsePubkeyRun(lib, pubkey);
    if p.result.Ok? {
      var calls := PubKeyTweakRunAsWritten(lib, op, pubkey, tweak).calls;
      var before := p.calls + [PubkeyTweak(op, p.result.value, tweak)];
      assert calls[..|before|] == before;
      assert calls[1] == before[1];
      assert !ReadsInBounds(calls[1]);
    }
  }

  /** With the tweak's length checked, every call the tweaks make stays within its buffers. */
  lemma TweaksStayInBounds(lib: Lib, op: TweakOp, key: Bytes, tweak: Bytes)
    ensures AllInBounds(PrivKeyTweakRun(lib, op, key, tweak).calls)
    ensures AllInBounds(PubKeyTweakRun(lib, op, key, tweak).calls)
  {
    PubKeyTweakStaysInBounds(lib, op, key, tweak);
  }

  lemma PubKeyTweakStaysInBounds(lib: Lib, op: TweakOp, pubkey: Bytes, tweak: Bytes)
    ensures AllInBounds(PubKeyTweakRun(lib, op, pubkey, tweak).calls)
  {
    var r := PubKeyTweakRun(lib, op, pubkey, tweak);
    if IsPubkeyLength(|pubkey|) && |tweak| == 32 {
      var p := ParsePubkeyRun(lib, pubkey);
      assert ReadsInBounds(PubkeyParse(pubkey, |pubkey|));
      if p.result.Ok? {
        var o := lib.pubkeyTweak(op, p.result.value, tweak);
        var rest := [PubkeyTweak(op, p.result.value, tweak)] + (if o.status == 1 then [SerializeCall(o.value)] else []);
        assert AllInBounds(rest);
        assert r.calls == p.calls + rest;
      }
    }
  }

  /** `pubkeys.map { allocPublicKey(it) }`: parses left to right and stops at the first failure. */
  function ParseAllRun(lib: Lib, pubkeys: seq<Bytes>): (r: Run<seq<Pubkey>>)
    ensures |r.calls| <= |pubkeys|
    ensures r.result.Ok? <==> forall i :: 0 <= i < |pubkeys| ==> ParsePubkeyRun(lib, pubkeys[i]).result.Ok?
    ensures r.result.Ok? ==> |r.result.value| == |pubkeys| && |r.calls| == |pubkeys|
    ensures r.result.Ok? ==> forall i :: 0 <= i < |pubkeys| ==>
      r.result.value[i] == ParsePubkeyRun(lib, pubkeys[i]).result.value &&
      r.calls[i] == PubkeyParse(pubkeys[i], |pubkeys[i]|)
    decreases |pubkeys|
  {
    if pubkeys == [] then Run(Ok([]), [])
    else
      var init := ParseAllRun(lib, pubkeys[..|pubkeys| - 1]);
      if init.result.Err? then init
      else
        var p := ParsePubkeyRun(lib, pubkeys[|pubkeys| - 1]);
        if p.result.Err? then Fail(p.result.error, init.calls + p.calls)
        else Run(Ok(init.result.value + [p.result.value]), init.calls + p.calls)
  }

  /** One more key: parsing a prefix that succeeded is extended by parsing the next key. */
  lemma ParseAllExtend(lib: Lib, pubkeys: seq<Bytes>, i: nat)
    requires i < |pubkeys| && ParseAllRun(lib, pubkeys[..i]).result.Ok?
    ensures
      var init := ParseAllRun(lib, pubkeys[..i]);
      var p := ParsePubkeyRun(lib, pubkeys[i]);
      ParseAllRun(lib, pubkeys[..i + 1]) ==
        if p.result.Err? then Fail(p.result.error, init.calls + p.calls)
        else Run(Ok(init.result.value + [p.result.value]), init.calls + p.calls)
  {
    assert pubkeys[..i + 1][..i] == pubkeys[..i];
  }

  /** Once a prefix of the keys fails to parse, the keys after it are never looked at. */
  lemma {:induction false} ParseAllStops(lib: Lib, pubkeys: seq<Bytes>, n: nat)
    requires n <= |pubkeys| && ParseAllRun(lib, pubkeys[..n]).result.Err?
    ensures ParseAllRun(lib, pubkeys) == ParseAllRun(lib, pubkeys[..n])
    decreases |pubkeys|
  {
    if n == |pubkeys| {
      assert pubkeys[..n] == pubkeys;
    } else {
      var init := pubkeys[..|pubkeys| - 1];
      assert init[..n] == pubkeys[..n];
      ParseAllStops(lib, init, n);
    }
  }

  function PubKeyCombineRun(lib: Lib, pubkeys: seq<Bytes>): (r: Run<Bytes>)
    ensures !AllPubkeyLengths(pubkeys) ==> r == Fail(IllegalArgument, [])
    ensures AllPubkeyLengths(pubkeys) ==>
      var ps := ParseAllRun(lib, pubkeys);
      (ps.result.Err? ==> r == Fail(ps.result.error, ps.calls)) &&
      (ps.result.Ok? ==>
        var o := lib.pubkeyCombine(ps.result.value, |pubkeys|);
        r.calls == ps.calls + [PubkeyCombine(ps.result.value, |pubkeys|)] + (if o.status == 1 then [SerializeCall(o.value)] else []) &&
        (r.result.Ok? <==> o.status == 1 && Serializes(lib, o.value)))
    ensures r.result.Ok? ==> |r.result.value| <= 65
    ensures r.result.Ok? ==>
      var ps := ParseAllRun(lib, pubkeys).result;
      ps.Ok? && r.result.value == Uncompressed(lib, lib.pubkeyCombine(ps.value, |pubkeys|).value)
  {
    if !AllPubkeyLengths(pubkeys) then Fail(IllegalArgument, [])
    else
      var ps := ParseAllRun(lib, pubkeys);
      if ps.result.Err? then Fail(ps.result.error, ps.calls)
      else
        SerializeChecked(lib, lib.pubkeyCombine(ps.result.value, |pubkeys|), CallFailed("secp256k1_ec_pubkey_combine() failed"),
                         ps.calls + [PubkeyCombine(ps.result.value, |pubkeys|)])
  }

  function EcdhRun(lib: Lib, privkey: Bytes, pubkey: Bytes): (r: Run<Bytes>)
    ensures !(|privkey| == 32 && IsPubkeyLength(|pubkey|)) ==> r == Fail(IllegalArgument, [])
    ensures |privkey| == 32 && IsPubkeyLength(|pubkey|) ==>
      var p := ParsePubkeyRun(lib, pubkey);
      (p.result.Err? ==> r == Fail(p.result.error, p.calls)) &&
      (p.result.Ok? ==>
        r.calls == p.calls + [Ecdh(p.result.value, privkey)] &&
        (r.result.Ok? <==> lib.ecdh(p.result.value, privkey).status == 1))
    ensures r.result.Ok? ==> |r.result.value| == 32
    ensures r.result.Ok? ==>
      var p := ParsePubkeyRun(lib, pubkey).result;
      p.Ok? && lib.ecdh(p.value, privkey).status == 1 && r.result.value == lib.ecdh(p.value, privkey).value
  {
    if |privkey| != 32 || !IsPubkeyLength(|pubkey|) then Fail(IllegalArgument, [])
    else
      var p := ParsePubkeyRun(lib, pubkey);
      if p.result.Err? then Fail(p.result.error, p.calls)
      else
        Checked(lib.ecdh(p.result.value, privkey), CallFailed("secp256k1_ecdh() failed"),
                p.calls + [Ecdh(p.result.value, privkey)])
  }

  function EcdsaRecoverRun(lib: Lib, sig: Bytes, message: Bytes, recid: int): (r: Run<Bytes>)
    ensures !(|sig| == 64 && |message| == 32) ==> r == Fail(IllegalArgument, [])
    ensures |sig| == 64 && |message| == 32 ==>
      var rs := lib.recoverableSignatureParseCompact(sig, recid);
      var o := lib.ecdsaRecover(rs.value, message);
      r.calls == [RecoverableSignatureParseCompact(sig, recid)] +
        (if rs.status == 1 then [EcdsaRecover(rs.value, message)] + (if o.status == 1 then [SerializeCall(o.value)] else [])
         else []) &&
      (r.result.Ok? <==> rs.status == 1 && o.status == 1 && Serializes(lib, o.value))
    ensures r.result.Ok? ==> |r.result.value| <= 65
    ensures r.result.Ok? ==>
      var rs := lib.recoverableSignatureParseCompact(sig, recid);
      r.result.value == Uncompressed(lib, lib.ecdsaRecover(rs.value, message).value)
  {
    if |sig| != 64 || |message| != 32 then Fail(IllegalArgument, [])
    else
      var rsig := Checked(lib.recoverableSignatureParseCompact(sig, recid),
                          CallFailed("secp256k1_ecdsa_recoverable_signature_parse_compact() failed"),
                          [RecoverableSignatureParseCompact(sig, recid)]);
      if rsig.result.Err? then rsig
      else
        SerializeChecked(lib, lib.ecdsaRecover(rsig.result.value, message), CallFailed("secp256k1_ecdsa_recover() failed"),
                         rsig.calls + [EcdsaRecover(rsig.result.value, message)])
  }

  function Compact2derRun(lib: Lib, sig: Bytes): (r: Run<Bytes>)
    ensures |sig| != 64 ==> r == Fail(IllegalArgument, [])
    ensures |sig| == 64 ==>
      var p := lib.signatureParseCompact(sig);
      r.calls == [SignatureParseCompact(sig)] + (if p.status == 1 then [SignatureSerializeDer(p.value, 73)] else []) &&
      (r.result.Ok? <==> p.status == 1 && lib.signatureSerializeDer(p.value).status == 1)
    ensures r.result.Ok? ==> |r.result.value| <= 73
    ensures r.result.Ok? ==>
      var p := ParseSignatureRun(lib, sig).result;
      p.Ok? &&
      var w := lib.signatureSerializeDer(p.value);
      w.status == 1 && r.result.value == w.buf[..w.len]
  {
    if |sig| != 64 then Fail(IllegalArgument, [])
    else
      var p := ParseSignatureRun(lib, sig);
      if p.result.Err? then Fail(p.result.error, p.calls)
      else
        var w := lib.signatureSerializeDer(p.result.value);
        var calls := p.calls + [SignatureSerializeDer(p.result.value, 73)];
        match RequireSuccess(w.status, CallFailed("secp256k1_ecdsa_signature_serialize_der() failed"))
        case Err(e) => Fail(e, calls)
        case Ok(_) => Run(Ok(w.buf[..w.len]), calls)
  }

  function VerifySchnorrRun(lib: Lib, signature: Bytes, data: Bytes, pub: Bytes): (r: Run<bool>)
    ensures !(|signature| == 64 && |data| == 32 && |pub| == 32) ==> r == Fail(IllegalArgument, [])
    ensures r.result.Ok? ==>
      var x := lib.xonlyPubkeyParse(pub);
      x.status == 1 &&
      r.calls == [XonlyPubkeyParse(pub), SchnorrsigVerify(signature, data, 32, x.value)] &&
      (r.result.value <==> lib.schnorrsigVerify(signature, data, 32, x.value) == 1)
    ensures |signature| == 64 && |data| == 32 && |pub| == 32 ==>
      (r.result.Ok? <==> lib.xonlyPubkeyParse(pub).status == 1)
  {
    if |signature| != 64 || |data| != 32 || |pub| != 32 then Fail(IllegalArgument, [])
    else
      var x := Checked(lib.xonlyPubkeyParse(pub), CallFailed("secp256k1_xonly_pubkey_parse() failed"), [XonlyPubkeyParse(pub)]);
      if x.result.Err? then Fail(x.result.error, x.calls)
      else
        var status := lib.schnorrsigVerify(signature, data, 32, x.result.value);
        Run(Ok(status == 1), x.calls + [SchnorrsigVerify(signature, data, 32, x.result.value)])
  }

  predicate AuxRandOk(auxrand32: Option<Bytes>) {
    auxrand32.Some? ==> |auxrand32.value| == 32
  }

  /** `signSchnorr` past its checks, when the keypair cannot be created. */
  lemma SignSchnorrKeypairFails(lib: Lib, data: Bytes, sec: Bytes, auxrand32: Option<Bytes>)
    requires |sec| == 32 && |data| == 32 && AuxRandOk(auxrand32)
    requires lib.keypairCreate(sec).status != 1
    ensures SignSchnorrRun(lib, data, sec, auxrand32) ==
      Fail(Secp256k1Exception(CallFailed("secp256k1_keypair_create() failed")), [KeypairCreate(sec)])
  {
  }

  /** `signSchnorr` past its checks, once the keypair is created: the
      signing call decides the outcome. */
  lemma SignSchnorrSigns(lib: Lib, data: Bytes, sec: Bytes, auxrand32: Option<Bytes>)
    requires |sec| == 32 && |data| == 32 && AuxRandOk(auxrand32)
    requires lib.keypairCreate(sec).status == 1
    ensures var kp := lib.keypairCreate(sec);
      var o := lib.schnorrsigSign32(data, kp.value, auxrand32);
      var calls := [KeypairCreate(sec), SchnorrsigSign32(data, kp.value, auxrand32)];
      SignSchnorrRun(lib, data, sec, auxrand32) ==
        if o.status != 1 then Fail(Secp256k1Exception(CallFailed("secp256k1_ecdsa_sign() failed")), calls)
        else Run(Ok(o.value), calls)
  {
  }

  function SignSchnorrRun(lib: Lib, data: Bytes, sec: Bytes, auxrand32: Option<Bytes>): (r: Run<Bytes>)
    ensures !(|sec| == 32 && |data| == 32 && AuxRandOk(auxrand32)) ==> r == Fail(IllegalArgument, [])
    ensures |sec| == 32 && |data| == 32 && AuxRandOk(auxrand32) ==>
      var kp := lib.keypairCreate(sec);
      r.calls == [KeypairCreate(sec)] + (if kp.status == 1 then [SchnorrsigSign32(data, kp.value, auxrand32)] else []) &&
      (r.result.Ok? <==> kp.status == 1 && lib.schnorrsigSign32(data, kp.value, auxrand32).status == 1)
    ensures r.result.Ok? ==> |r.result.value| == 64
    ensures r.result.Ok? ==>
      var kp := lib.keypairCreate(sec);
      var o := lib.schnorrsigSign32(data, kp.value, auxrand32);
      kp.status == 1 && o.status == 1 && r.result.value == o.value
  {
    if |sec| != 32 || |data| != 32 || !AuxRandOk(auxrand32) then Fail(IllegalArgument, [])
    else
      var kp := Checked(lib.keypairCreate(sec), CallFailed("secp256k1_keypair_create() failed"), [KeypairCreate(sec)]);
      if kp.result.Err? then Fail(kp.result.error, kp.calls)
      else
        // the source reuses the ECDSA message for a failed Schnorr signature
        Checked(lib.schnorrsigSign32(data, kp.result.value, auxrand32), CallFailed("secp256k1_ecdsa_sign() failed"),
                kp.calls + [SchnorrsigSign32(data, kp.result.value, auxrand32)])
  }
}
