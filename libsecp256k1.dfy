/** The C library behind the iOS `Secp256k1` object, as the Kotlin code sees it.
    Curve arithmetic is not modelled: each entry point is a total function from
    what it reads to the status it returns and the bytes it writes, and a
    `Call` value records one invocation with the arguments it was given. */
module LibSecp256k1 {
  import opened Kotlin

  // Flag constants of secp256k1.h.
  const SECP256K1_FLAGS_TYPE_CONTEXT: int := 1
  const SECP256K1_FLAGS_TYPE_COMPRESSION: int := 2
  const SECP256K1_FLAGS_BIT_CONTEXT_VERIFY: int := 256
  const SECP256K1_FLAGS_BIT_CONTEXT_SIGN: int := 512
  const SECP256K1_FLAGS_BIT_COMPRESSION: int := 256
  const SECP256K1_EC_UNCOMPRESSED: int := SECP256K1_FLAGS_TYPE_COMPRESSION
  const SECP256K1_EC_COMPRESSED: int := SECP256K1_FLAGS_TYPE_COMPRESSION + SECP256K1_FLAGS_BIT_COMPRESSION

  /** The flags the iOS object creates its context with: TYPE_CONTEXT | SIGN | VERIFY. */
  const CONTEXT_FLAGS: int := SECP256K1_FLAGS_TYPE_CONTEXT + SECP256K1_FLAGS_BIT_CONTEXT_SIGN + SECP256K1_FLAGS_BIT_CONTEXT_VERIFY

  // Opaque structures of secp256k1.h, by their size in bytes.
  type EcdsaSignature = s: Bytes | |s| == 64 witness seq(64, _ => 0)
  type RecoverableSignature = s: Bytes | |s| == 65 witness seq(65, _ => 0)
  type Pubkey = s: Bytes | |s| == 64 witness seq(64, _ => 0)
  type XOnlyPubkey = s: Bytes | |s| == 64 witness seq(64, _ => 0)
  type Keypair = s: Bytes | |s| == 96 witness seq(96, _ => 0)

  // Fixed-size byte buffers the library fills.
  type Bytes32 = s: Bytes | |s| == 32 witness seq(32, _ => 0)
  type Bytes64 = s: Bytes | |s| == 64 witness seq(64, _ => 0)

  /** The status a call returns and the value it writes through its output pointer. */
  datatype Out<T> = Out(status: int, value: T)

  /** A serializer's status, the whole output buffer after the call and the length it wrote back. */
  datatype Written = Written(status: int, buf: Bytes, len: nat)

  /** `secp256k1_ec_pubkey_serialize` into a 65-byte buffer: the length written back never exceeds it. */
  type Serialized65 = w: Written | |w.buf| == 65 && w.len <= 65 witness Written(0, seq(65, _ => 0), 0)

  /** `secp256k1_ecdsa_signature_serialize_der` into a 73-byte buffer. */
  type Serialized73 = w: Written | |w.buf| == 73 && w.len <= 73 witness Written(0, seq(73, _ => 0), 0)

  datatype TweakOp = Add | Mul

  /** The entry points the iOS object calls; the context argument is implicit. */
  datatype Lib = Lib(
    signatureParseCompact: Bytes -> Out<EcdsaSignature>,
    signatureParseDer: (Bytes, nat) -> Out<EcdsaSignature>,
    signatureSerializeCompact: EcdsaSignature -> Out<Bytes64>,
    signatureSerializeDer: EcdsaSignature -> Serialized73,
    signatureNormalize: EcdsaSignature -> Out<EcdsaSignature>,
    pubkeyParse: (Bytes, nat) -> Out<Pubkey>,
    pubkeySerialize: (Pubkey, int) -> Serialized65,
    ecdsaVerify: (EcdsaSignature, Bytes, Pubkey) -> int,
    ecdsaSign: (Bytes, Bytes) -> Out<EcdsaSignature>,
    seckeyVerify: Bytes -> int,
    pubkeyCreate: Bytes -> Out<Pubkey>,
    seckeyNegate: Bytes -> Out<Bytes32>,
    seckeyTweak: (TweakOp, Bytes, Bytes) -> Out<Bytes32>,
    pubkeyNegate: Pubkey -> Out<Pubkey>,
    pubkeyTweak: (TweakOp, Pubkey, Bytes) -> Out<Pubkey>,
    pubkeyCombine: (seq<Pubkey>, nat) -> Out<Pubkey>,
    ecdh: (Pubkey, Bytes) -> Out<Bytes32>,
    recoverableSignatureParseCompact: (Bytes, int) -> Out<RecoverableSignature>,
    ecdsaRecover: (RecoverableSignature, Bytes) -> Out<Pubkey>,
    xonlyPubkeyParse: Bytes -> Out<XOnlyPubkey>,
    schnorrsigVerify: (Bytes, Bytes, nat, XOnlyPubkey) -> int,
    keypairCreate: Bytes -> Out<Keypair>,
    schnorrsigSign32: (Bytes, Keypair, Option<Bytes>) -> Out<Bytes64>
  )

  /** One invocation of the library, with the bytes each pointer argument designates. */
  datatype Call =
    | SignatureParseCompact(input: Bytes)
    | SignatureParseDer(input: Bytes, inputLen: nat)
    | SignatureSerializeCompact(sig: EcdsaSignature)
    | SignatureSerializeDer(sig: EcdsaSignature, outputLen: nat)
    | SignatureNormalize(sig: EcdsaSignature)
    | PubkeyParse(input: Bytes, inputLen: nat)
    | PubkeySerialize(pubkey: Pubkey, outputLen: nat, flags: int)
    | EcdsaVerify(sig: EcdsaSignature, msg: Bytes, pubkey: Pubkey)
    | EcdsaSign(msg: Bytes, seckey: Bytes)
    | SeckeyVerify(seckey: Bytes)
    | PubkeyCreate(seckey: Bytes)
    | SeckeyNegate(seckey: Bytes)
    | SeckeyTweak(op: TweakOp, seckey: Bytes, tweak: Bytes)
    | PubkeyNegate(pubkey: Pubkey)
    | PubkeyTweak(op: TweakOp, pubkey: Pubkey, tweak: Bytes)
    | PubkeyCombine(pubkeys: seq<Pubkey>, n: nat)
    | Ecdh(pubkey: Pubkey, seckey: Bytes)
    | RecoverableSignatureParseCompact(input: Bytes, recid: int)
    | EcdsaRecover(rsig: RecoverableSignature, msg: Bytes)
    | XonlyPubkeyParse(input: Bytes)
    | SchnorrsigVerify(sig64: Bytes, msg: Bytes, msgLen: nat, xonly: XOnlyPubkey)
    | KeypairCreate(seckey: Bytes)
    | SchnorrsigSign32(msg: Bytes, keypair: Keypair, auxRand: Option<Bytes>)
    | ContextDestroy

  /** The call reads and writes only within the buffers it was handed: every
      pointer to a fixed-size C argument designates at least that many bytes,
      and every explicit length fits its buffer. */
  predicate ReadsInBounds(c: Call) {
    match c
    case SignatureParseCompact(input) => |input| >= 64
    case SignatureParseDer(input, n) => n <= |input|
    case SignatureSerializeDer(_, outputLen) => outputLen <= 73
    case PubkeyParse(input, n) => n <= |input|
    case PubkeySerialize(_, outputLen, _) => outputLen <= 65
    case EcdsaVerify(_, msg, _) => |msg| >= 32
    case EcdsaSign(msg, seckey) => |msg| >= 32 && |seckey| >= 32
    case SeckeyVerify(seckey) => |seckey| >= 32
    case PubkeyCreate(seckey) => |seckey| >= 32
    case SeckeyNegate(seckey) => |seckey| >= 32
    case SeckeyTweak(_, seckey, tweak) => |seckey| >= 32 && |tweak| >= 32
    case PubkeyTweak(_, _, tweak) => |tweak| >= 32
    case PubkeyCombine(pubkeys, n) => n == |pubkeys|
    case Ecdh(_, seckey) => |seckey| >= 32
    case RecoverableSignatureParseCompact(input, _) => |input| >= 64
    case EcdsaRecover(_, msg) => |msg| >= 32
    case XonlyPubkeyParse(input) => |input| >= 32
    case SchnorrsigVerify(sig, msg, msgLen, _) => |sig| >= 64 && msgLen <= |msg|
    case KeypairCreate(seckey) => |seckey| >= 32
    case SchnorrsigSign32(msg, _, auxRand) => |msg| >= 32 && (auxRand.Some? ==> |auxRand.value| >= 32)
    case _ => true
  }

  /** A public key leaves the library only as a 65-byte uncompressed serialization. */
  predicate SerializesUncompressed(c: Call) {
    c.PubkeySerialize? ==> c.flags == SECP256K1_EC_UNCOMPRESSED && c.outputLen == 65
  }

  predicate AllInBounds(calls: seq<Call>) {
    forall i :: 0 <= i < |calls| ==> ReadsInBounds(calls[i])
  }

  predicate AllUncompressed(calls: seq<Call>) {
    forall i :: 0 <= i < |calls| ==> SerializesUncompressed(calls[i])
  }
}
