/** The iOS `Secp256k1` object: every operation checks its arguments, opens a
    `memScoped` block, pins the caller's arrays with `toNat`, lets the library
    fill native structures allocated in the block, and copies the result out
    before the block ends.

    The object records each library call in the ghost trace `calls`. Each
    public method is proved to return exactly what the matching function of
    Secp256k1Spec returns and to make exactly that function's calls, the first
    of which ever made creates the context; every pointer it hands the library
    is pinned in the open block, whose end unpins everything, whether the
    method returns or throws. */
module Secp256k1Ios {
  import opened Kotlin
  import opened LibSecp256k1
  import opened Secp256k1Spec

  /** The lazily created `ctx` of the object: not created yet, created with
      the given flags, or destroyed by `cleanup`. */
  datatype Context = Unborn | Created(flags: int) | Destroyed

  /** The trace after two steps of an operation is that of both steps at once. */
  lemma Record(before: seq<Call>, a: seq<Call>, b: seq<Call>)
    ensures before + a + b == before + (a + b)
  {
  }

  /** The bytes of an optional array argument. */
  function Contents(a: Option<array<uint8>>): Option<Bytes>
    reads if a.Some? then {a.value} else {}
  {
    match a
    case None => None
    case Some(b) => Some(b[..])
  }

  /** Whether an array holds exactly the value a function of Secp256k1Spec returns. */
  ghost predicate Agrees(r: Result<array<uint8>>, s: Result<Bytes>)
    reads if r.Ok? then {r.value} else {}
  {
    match r
    case Ok(a) => s.Ok? && a[..] == s.value
    case Err(e) => s == Err(e)
  }

  /** The contents of the caller's arrays, in order. */
  function Snapshot(bufs: seq<array<uint8>>): (r: seq<Bytes>)
    reads bufs
    ensures |r| == |bufs|
    ensures forall i :: 0 <= i < |bufs| ==> r[i] == bufs[i][..]
    decreases |bufs|
  {
    if bufs == [] then [] else Snapshot(bufs[..|bufs| - 1]) + [bufs[|bufs| - 1][..]]
  }

  /** What the library writes through a pointer into a Kotlin array. */
  method Fill(a: array<uint8>, content: Bytes)
    requires a.Length == |content|
    modifies a
    ensures a[..] == content
  {
    forall i | 0 <= i < a.Length {
      a[i] := content[i];
    }
  }

  /** `ByteArray.copyOf()`. */
  method CopyOf(a: array<uint8>) returns (b: array<uint8>)
    ensures fresh(b) && b[..] == a[..]
  {
    b := new uint8[a.Length];
    forall i | 0 <= i < a.Length {
      b[i] := a[i];
    }
  }

  class Secp256k1 {
    const lib: Lib
    var ctx: Context
    ghost var calls: seq<Call>

    /** The `memScoped` block in progress: the contents of the arrays pinned
        in it, in the order they were pinned. Each pin's unpin is deferred to
        the end of the block, and a pin is named by its place in this list. */
    var pinned: seq<Bytes>

    /** The invariant the object keeps: the context is created, with the flags
        the object asks for, exactly when some library call has been made, and
        it is not destroyed; no library call made so far read or wrote outside
        the buffers it was handed; and every public key left the library as a
        65-byte uncompressed serialization. */
    ghost predicate Valid()
      reads this
    {
      && ctx == (if calls == [] then Unborn else Created(CONTEXT_FLAGS))
      && AllInBounds(calls)
      && AllUncompressed(calls)
    }

    /** No block is open: nothing is pinned, so no unpin is pending. */
    ghost predicate Idle()
      reads this
    {
      pinned == []
    }

    /** Pin p is live and pins an array holding these bytes. */
    ghost predicate PinnedAs(p: nat, bytes: Bytes)
      reads this
    {
      p < |pinned| && pinned[p] == bytes
    }

    /** The pointer handed for one array argument is a live pin on it. */
    ghost predicate PinsOne(pins: seq<nat>, a: Bytes)
      reads this
    {
      |pins| == 1 && PinnedAs(pins[0], a)
    }

    /** The pointers handed for two array arguments are live pins on them, in order. */
    ghost predicate PinsTwo(pins: seq<nat>, a: Bytes, b: Bytes)
      reads this
    {
      |pins| == 2 && PinnedAs(pins[0], a) && PinnedAs(pins[1], b)
    }

    /** The pointers handed to a call are live pins, one for each byte-array
        argument in argument order, each pinning an array that holds that
        argument; every other argument is a native structure or a number. */
    ghost predicate Live(c: Call, pins: seq<nat>)
      reads this
    {
      match c
      case SignatureParseCompact(input) => PinsOne(pins, input)
      case SignatureParseDer(input, _) => PinsOne(pins, input)
      case PubkeyParse(input, _) => PinsOne(pins, input)
      case EcdsaVerify(_, msg, _) => PinsOne(pins, msg)
      case EcdsaSign(msg, seckey) => PinsTwo(pins, msg, seckey)
      case SeckeyVerify(seckey) => PinsOne(pins, seckey)
      case PubkeyCreate(seckey) => PinsOne(pins, seckey)
      case SeckeyNegate(seckey) => PinsOne(pins, seckey)
      case SeckeyTweak(_, seckey, tweak) => PinsTwo(pins, seckey, tweak)
      case PubkeyTweak(_, _, tweak) => PinsOne(pins, tweak)
      case Ecdh(_, seckey) => PinsOne(pins, seckey)
      case RecoverableSignatureParseCompact(input, _) => PinsOne(pins, input)
      case EcdsaRecover(_, msg) => PinsOne(pins, msg)
      case XonlyPubkeyParse(input) => PinsOne(pins, input)
      case SchnorrsigVerify(sig, msg, _, _) => PinsTwo(pins, sig, msg)
      case KeypairCreate(seckey) => PinsOne(pins, seckey)
      case SchnorrsigSign32(msg, _, auxRand) =>
        if auxRand.Some? then PinsTwo(pins, msg, auxRand.value) else PinsOne(pins, msg)
      case _ => pins == []
    }

    constructor (lib: Lib)
      ensures Valid() && Idle() && this.lib == lib && ctx == Unborn && calls == []
    {
      this.lib := lib;
      ctx := Unborn;
      calls := [];
      pinned := [];
    }

    /** `toNat`: pins the array and defers its unpin before taking the
        address of element 0, which throws for an empty array. The pointer is
        the pin. */
    method ToNat(bytes: array<uint8>) returns (p: Result<nat>)
      modifies this
      ensures calls == old(calls) && ctx == old(ctx)
      ensures pinned == old(pinned) + [bytes[..]]
      ensures p.Ok? ==> PinnedAs(p.value, bytes[..])
      ensures bytes.Length == 0 ==> p == Err(IndexOutOfBounds)
      ensures bytes.Length > 0 ==> p == Ok(|old(pinned)|)
    {
      var pin := |pinned|;
      pinned := pinned + [bytes[..]];
      if bytes.Length == 0 {
        p := Err(IndexOutOfBounds);
      } else {
        p := Ok(pin);
      }
    }

    /** `auxrand32?.let { toNat(it) }`: pins the array when there is one, and
        pins nothing otherwise. */
    method PinOptional(a: Option<array<uint8>>) returns (pins: seq<nat>)
      requires a.Some? ==> a.value.Length > 0
      modifies this
      ensures calls == old(calls) && ctx == old(ctx)
      ensures a.None? ==> pins == [] && pinned == old(pinned)
      ensures a.Some? ==> pins == [|old(pinned)|] && pinned == old(pinned) + [a.value[..]] && PinnedAs(pins[0], a.value[..])
    {
      pins := [];
      if a.Some? {
        var p := ToNat(a.value);
        pins := [p.value];
      }
    }

    /** The end of the block runs the deferred unpins, newest first; each
        releases its pin. */
    method Close()
      modifies this
      ensures Idle()
      ensures calls == old(calls) && ctx == old(ctx)
    {
      while pinned != []
        invariant calls == old(calls) && ctx == old(ctx)
        decreases |pinned|
      {
        pinned := pinned[..|pinned| - 1];
      }
    }

    /** One library call, on the context (created here the first time) and on
        pointers that are pinned in the open block. */
    method Invoke(c: Call, pins: seq<nat>)
      requires Valid() && ReadsInBounds(c) && SerializesUncompressed(c)
      requires Live(c, pins)
      modifies this
      ensures Valid()
      ensures calls == old(calls) + [c]
      ensures pinned == old(pinned)
    {
      if ctx == Unborn {
        ctx := Created(CONTEXT_FLAGS);
      }
      calls := calls + [c];
    }

    // -------------------------------------------------------------------------
    // Private helpers; native structures are the values the library wrote.

    method AllocSignature(input: array<uint8>) returns (r: Result<EcdsaSignature>)
      requires Valid()
      modifies this
      ensures Valid()
      ensures pinned == old(pinned) + [old(input[..])]
      ensures r == ParseSignatureRun(lib, old(input[..])).result
      ensures calls == old(calls) + ParseSignatureRun(lib, old(input[..])).calls
    {
      var nativeBytes;
      nativeBytes := ToNat(input);
      if nativeBytes.Err? {
        return Err(nativeBytes.error);
      }
      var o;
      if input.Length == 64 {
        o := lib.signatureParseCompact(input[..]);
        Invoke(SignatureParseCompact(input[..]), [nativeBytes.value]);
      } else if input.Length < 64 {
        return Err(Secp256k1Exception(UnknownSignatureFormat));
      } else {
        o := lib.signatureParseDer(input[..], input.Length);
        Invoke(SignatureParseDer(input[..], input.Length), [nativeBytes.value]);
      }
      var ok := RequireSuccess(o.status, CannotParseSignature(input[..]));
      if ok.Err? {
        return Err(ok.error);
      }
      r := Ok(o.value);
    }

    method SerializeSignature(sig: EcdsaSignature) returns (r: Result<Bytes>)
      requires Valid()
      modifies this
      ensures Valid() && pinned == old(pinned)
      ensures r == SerializeSignatureRun(lib, sig).result
      ensures calls == old(calls) + SerializeSignatureRun(lib, sig).calls
    {
      var o := lib.signatureSerializeCompact(sig);
      Invoke(SignatureSerializeCompact(sig), []);
      var ok := RequireSuccess(o.status, CallFailed("secp256k1_ecdsa_signature_serialize_compact() failed"));
      if ok.Err? {
        return Err(ok.error);
      }
      r := Ok(o.value);
    }

    method AllocPublicKey(pubkey: array<uint8>) returns (r: Result<Pubkey>)
      requires Valid()
      modifies this
      ensures Valid()
      ensures pinned == old(pinned) + [old(pubkey[..])]
      ensures r == ParsePubkeyRun(lib, old(pubkey[..])).result
      ensures calls == old(calls) + ParsePubkeyRun(lib, old(pubkey[..])).calls
    {
      var natPub;
      natPub := ToNat(pubkey);
      if natPub.Err? {
        return Err(natPub.error);
      }
      var o := lib.pubkeyParse(pubkey[..], pubkey.Length);
      Invoke(Call.PubkeyParse(pubkey[..], pubkey.Length), [natPub.value]);
      var ok := RequireSuccess(o.status, CallFailed("secp256k1_ec_pubkey_parse() failed"));
      if ok.Err? {
        return Err(ok.error);
      }
      r := Ok(o.value);
    }

    /** Asks for the uncompressed form in a 65-byte buffer and reads back as
        many bytes as the library reports writing. */
    method SerializePubkey(pubkey: Pubkey) returns (r: Result<Bytes>)
      requires Valid()
      modifies this
      ensures Valid() && pinned == old(pinned)
      ensures r == SerializePubkeyRun(lib, pubkey).result
      ensures calls == old(calls) + SerializePubkeyRun(lib, pubkey).calls
    {
      var outputLen: nat := 65;
      var w := lib.pubkeySerialize(pubkey, SECP256K1_EC_UNCOMPRESSED);
      Invoke(PubkeySerialize(pubkey, outputLen, SECP256K1_EC_UNCOMPRESSED), []);
      outputLen := w.len;
      var ok := RequireSuccess(w.status, CallFailed("secp256k1_ec_pubkey_serialize() failed"));
      if ok.Err? {
        return Err(ok.error);
      }
      r := Ok(w.buf[..outputLen]);
    }

    // -------------------------------------------------------------------------
    // Public operations. Each checks its `require`s before the block opens, and
    // closes the block on every path, whether it returns or throws.

    method Verify(signature: array<uint8>, message: array<uint8>, pubkey: array<uint8>) returns (r: Result<bool>)
      requires Valid() && Idle()
      modifies this
      ensures Valid() && Idle()
      ensures r == VerifyRun(lib, old(signature[..]), old(message[..]), old(pubkey[..])).result
      ensures calls == old(calls) + VerifyRun(lib, old(signature[..]), old(message[..]), old(pubkey[..])).calls
    {
      if message.Length != 32 || !IsPubkeyLength(pubkey.Length) {
        return Err(IllegalArgument);
      }
      ghost var run := VerifyRun(lib, signature[..], message[..], pubkey[..]);
      ghost var calls0 := calls;
      ghost var p0 := ParsePubkeyRun(lib, pubkey[..]);
      ghost var s0 := ParseSignatureRun(lib, signature[..]);
      var nPubkey;
      nPubkey := AllocPublicKey(pubkey);
      if nPubkey.Err? {
        assert run == Fail(p0.result.error, p0.calls);
        r := Err(nPubkey.error);
      } else {
        var nMessage, nSig;
        nMessage := ToNat(message);
        nSig := AllocSignature(signature);
        Record(calls0, p0.calls, s0.calls);
        if nSig.Err? {
          assert run == Fail(s0.result.error, p0.calls + s0.calls);
          r := Err(nSig.error);
        } else {
          var c := EcdsaVerify(nSig.value, message[..], nPubkey.value);
          var status := lib.ecdsaVerify(nSig.value, message[..], nPubkey.value);
          assert run == Run(Ok(status == 1), p0.calls + s0.calls + [c]);
          Invoke(c, [nMessage.value]);
          Record(calls0, p0.calls + s0.calls, [c]);
          r := Ok(status == 1);
        }
      }
      Close();
    }

    method Sign(message: array<uint8>, privkey: array<uint8>) returns (r: Result<Bytes>)
      requires Valid() && Idle()
      modifies this
      ensures Valid() && Idle()
      ensures r == SignRun(lib, old(message[..]), old(privkey[..])).result
      ensures calls == old(calls) + SignRun(lib, old(message[..]), old(privkey[..])).calls
    {
      if privkey.Length != 32 || message.Length != 32 {
        return Err(IllegalArgument);
      }
      var messageBytes, privkeyBytes := message[..], privkey[..];
      ghost var run := SignRun(lib, messageBytes, privkeyBytes);
      ghost var calls0 := calls;
      var nPrivkey, nMessage;
      nPrivkey := ToNat(privkey);
      nMessage := ToNat(message);
      var c := EcdsaSign(messageBytes, privkeyBytes);
      var o := lib.ecdsaSign(messageBytes, privkeyBytes);
      Invoke(c, [nMessage.value, nPrivkey.value]);
      var ok := RequireSuccess(o.status, CallFailed("secp256k1_ecdsa_sign() failed"));
      if ok.Err? {
        assert run == Fail(ok.error, [c]);
        r := Err(ok.error);
      } else {
        ghost var s0 := SerializeSignatureRun(lib, o.value);
        assert run == Run(s0.result, [c] + s0.calls);
        r := SerializeSignature(o.value);
        Record(calls0, [c], s0.calls);
      }
      Close();
    }

    /** The library normalizes the parsed signature in place; the result pairs
        its serialization with whether it was high-S. */
    method SignatureNormalize(sig: array<uint8>) returns (r: Result<(Bytes, bool)>)
      requires Valid() && Idle()
      modifies this
      ensures Valid() && Idle()
      ensures r == SignatureNormalizeRun(lib, old(sig[..])).result
      ensures calls == old(calls) + SignatureNormalizeRun(lib, old(sig[..])).calls
    {
      if sig.Length < 64 {
        return Err(IllegalArgument);
      }
      ghost var run := SignatureNormalizeRun(lib, sig[..]);
      ghost var calls0 := calls;
      ghost var p0 := ParseSignatureRun(lib, sig[..]);
      var nSig;
      nSig := AllocSignature(sig);
      if nSig.Err? {
        assert run == Fail(p0.result.error, p0.calls);
        r := Err(nSig.error);
      } else {
        var c := Call.SignatureNormalize(nSig.value);
        var n := lib.signatureNormalize(nSig.value);
        Invoke(c, []);
        Record(calls0, p0.calls, [c]);
        ghost var s0 := SerializeSignatureRun(lib, n.value);
        var serialized := SerializeSignature(n.value);
        Record(calls0, p0.calls + [c], s0.calls);
        if serialized.Err? {
          assert run == Fail(s0.result.error, p0.calls + [c] + s0.calls);
          r := Err(serialized.error);
        } else {
          assert run == Run(Ok((s0.result.value, n.status == 1)), p0.calls + [c] + s0.calls);
          r := Ok((serialized.value, n.status == 1));
        }
      }
      Close();
    }

    method SecKeyVerify(privkey: array<uint8>) returns (r: Result<bool>)
      requires Valid() && Idle()
      modifies this
      ensures Valid() && Idle()
      ensures r == SecKeyVerifyRun(lib, old(privkey[..])).result
      ensures calls == old(calls) + SecKeyVerifyRun(lib, old(privkey[..])).calls
    {
      if privkey.Length != 32 {
        return Ok(false);
      }
      ghost var calls0 := calls;
      var nPrivkey;
      nPrivkey := ToNat(privkey);
      var status := lib.seckeyVerify(privkey[..]);
      Invoke(SeckeyVerify(privkey[..]), [nPrivkey.value]);
      r := Ok(status == 1);
      Close();
    }

    method PubkeyCreate(privkey: array<uint8>) returns (r: Result<Bytes>)
      requires Valid() && Idle()
      modifies this
      ensures Valid() && Idle()
      ensures r == PubkeyCreateRun(lib, old(privkey[..])).result
      ensures calls == old(calls) + PubkeyCreateRun(lib, old(privkey[..])).calls
    {
      if privkey.Length != 32 {
        return Err(IllegalArgument);
      }
      ghost var run := PubkeyCreateRun(lib, privkey[..]);
      ghost var calls0 := calls;
      var nPrivkey;
      nPrivkey := ToNat(privkey);
      var c := Call.PubkeyCreate(privkey[..]);
      var o := lib.pubkeyCreate(privkey[..]);
      Invoke(c, [nPrivkey.value]);
      var ok := RequireSuccess(o.status, CallFailed("secp256k1_ec_pubkey_create() failed"));
      if ok.Err? {
        r := Err(ok.error);
      } else {
        ghost var s0 := SerializePubkeyRun(lib, o.value);
        assert run == Run(s0.result, [c] + s0.calls);
        r := SerializePubkey(o.value);
        Record(calls0, [c], s0.calls);
      }
      Close();
    }

    method PubkeyParse(pubkey: array<uint8>) returns (r: Result<Bytes>)
      requires Valid() && Idle()
      modifies this
      ensures Valid() && Idle()
      ensures r == PubkeyParseRun(lib, old(pubkey[..])).result
      ensures calls == old(calls) + PubkeyParseRun(lib, old(pubkey[..])).calls
    {
      if !IsPubkeyLength(pubkey.Length) {
        return Err(IllegalArgument);
      }
      ghost var run := PubkeyParseRun(lib, pubkey[..]);
      ghost var calls0 := calls;
      ghost var p0 := ParsePubkeyRun(lib, pubkey[..]);
      var nPubkey;
      nPubkey := AllocPublicKey(pubkey);
      if nPubkey.Err? {
        assert run == Fail(p0.result.error, p0.calls);
        r := Err(nPubkey.error);
      } else {
        ghost var s0 := SerializePubkeyRun(lib, nPubkey.value);
        assert run == Run(s0.result, p0.calls + s0.calls);
        r := SerializePubkey(nPubkey.value);
        Record(calls0, p0.calls, s0.calls);
      }
      Close();
    }

    /** The key is negated in a copy, which is returned; the caller's array is left as it was. */
    method PrivKeyNegate(privkey: array<uint8>) returns (r: Result<array<uint8>>)
      requires Valid() && Idle()
      modifies this
      ensures Valid() && Idle()
      ensures r.Ok? ==> fresh(r.value)
      ensures Agrees(r, PrivKeyNegateRun(lib, old(privkey[..])).result)
      ensures calls == old(calls) + PrivKeyNegateRun(lib, old(privkey[..])).calls
    {
      if privkey.Length != 32 {
        return Err(IllegalArgument);
      }
      ghost var calls0 := calls;
      var negated := CopyOf(privkey);
      var negPriv;
      negPriv := ToNat(negated);
      var o := lib.seckeyNegate(negated[..]);
      Invoke(SeckeyNegate(negated[..]), [negPriv.value]);
      Fill(negated, o.value);
      var ok := RequireSuccess(o.status, CallFailed("secp256k1_ec_seckey_negate() failed"));
      if ok.Err? {
        r := Err(ok.error);
      } else {
        r := Ok(negated);
      }
      Close();
    }

    /** `privKeyTweakAdd` and `privKeyTweakMul`, with the tweak's length checked. */
    method PrivKeyTweak(op: TweakOp, privkey: array<uint8>, tweak: array<uint8>) returns (r: Result<array<uint8>>)
      requires Valid() && Idle()
      modifies this
      ensures Valid() && Idle()
      ensures r.Ok? ==> fresh(r.value)
      ensures Agrees(r, PrivKeyTweakRun(lib, op, old(privkey[..]), old(tweak[..])).result)
      ensures calls == old(calls) + PrivKeyTweakRun(lib, op, old(privkey[..]), old(tweak[..])).calls
    {
      if privkey.Length != 32 || tweak.Length != 32 {
        return Err(IllegalArgument);
      }
      ghost var calls0 := calls;
      var tweaked := CopyOf(privkey);
      var natKey, natTweak;
      natKey := ToNat(tweaked);
      natTweak := ToNat(tweak);
      var o := lib.seckeyTweak(op, tweaked[..], tweak[..]);
      Invoke(SeckeyTweak(op, tweaked[..], tweak[..]), [natKey.value, natTweak.value]);
      Fill(tweaked, o.value);
      var ok := RequireSuccess(o.status, PrivTweakMessage(op));
      if ok.Err? {
        r := Err(ok.error);
      } else {
        r := Ok(tweaked);
      }
      Close();
    }

    method PrivKeyTweakAdd(privkey: array<uint8>, tweak: array<uint8>) returns (r: Result<array<uint8>>)
      requires Valid() && Idle()
      modifies this
      ensures Valid() && Idle()
      ensures r.Ok? ==> fresh(r.value)
      ensures Agrees(r, PrivKeyTweakRun(lib, Add, old(privkey[..]), old(tweak[..])).result)
      ensures calls == old(calls) + PrivKeyTweakRun(lib, Add, old(privkey[..]), old(tweak[..])).calls
    {
      r := PrivKeyTweak(Add, privkey, tweak);
    }

    method PrivKeyTweakMul(privkey: array<uint8>, tweak: array<uint8>) returns (r: Result<array<uint8>>)
      requires Valid() && Idle()
      modifies this
      ensures Valid() && Idle()
      ensures r.Ok? ==> fresh(r.value)
      ensures Agrees(r, PrivKeyTweakRun(lib, Mul, old(privkey[..]), old(tweak[..])).result)
      ensures calls == old(calls) + PrivKeyTweakRun(lib, Mul, old(privkey[..]), old(tweak[..])).calls
    {
      r := PrivKeyTweak(Mul, privkey, tweak);
    }

    method PubKeyNegate(pubkey: array<uint8>) returns (r: Result<Bytes>)
      requires Valid() && Idle()
      modifies this
      ensures Valid() && Idle()
      ensures r == PubKeyNegateRun(lib, old(pubkey[..])).result
      ensures calls == old(calls) + PubKeyNegateRun(lib, old(pubkey[..])).calls
    {
      if !IsPubkeyLength(pubkey.Length) {
        return Err(IllegalArgument);
      }
      ghost var run := PubKeyNegateRun(lib, pubkey[..]);
      ghost var calls0 := calls;
      ghost var p0 := ParsePubkeyRun(lib, pubkey[..]);
      var nPubkey;
      nPubkey := AllocPublicKey(pubkey);
      if nPubkey.Err? {
        assert run == Fail(p0.result.error, p0.calls);
        r := Err(nPubkey.error);
      } else {
        var c := PubkeyNegate(nPubkey.value);
        var o := lib.pubkeyNegate(nPubkey.value);
        Invoke(c, []);
        Record(calls0, p0.calls, [c]);
        var ok := RequireSuccess(o.status, CallFailed("secp256k1_ec_pubkey_negate() failed"));
        if ok.Err? {
          assert run == Fail(ok.error, p0.calls + [c]);
          r := Err(ok.error);
        } else {
          ghost var s0 := SerializePubkeyRun(lib, o.value);
          assert run == Run(s0.result, p0.calls + [c] + s0.calls);
          r := SerializePubkey(o.value);
          Record(calls0, p0.calls + [c], s0.calls);
        }
      }
      Close();
    }

    /** `pubKeyTweakAdd` and `pubKeyTweakMul`, with the tweak's length checked. */
    method PubKeyTweak(op: TweakOp, pubkey: array<uint8>, tweak: array<uint8>) returns (r: Result<Bytes>)
      requires Valid() && Idle()
      modifies this
      ensures Valid() && Idle()
      ensures r == PubKeyTweakRun(lib, op, old(pubkey[..]), old(tweak[..])).result
      ensures calls == old(calls) + PubKeyTweakRun(lib, op, old(pubkey[..]), old(tweak[..])).calls
    {
      if !IsPubkeyLength(pubkey.Length) || tweak.Length != 32 {
        return Err(IllegalArgument);
      }
      var pubkeyBytes, tweakBytes := pubkey[..], tweak[..];
      ghost var run := PubKeyTweakRun(lib, op, pubkeyBytes, tweakBytes);
      ghost var calls0 := calls;
      ghost var p0 := ParsePubkeyRun(lib, pubkeyBytes);
      var nPubkey;
      nPubkey := AllocPublicKey(pubkey);
      if nPubkey.Err? {
        assert run == Fail(p0.result.error, p0.calls);
        r := Err(nPubkey.error);
      } else {
        var nTweak;
        nTweak := ToNat(tweak);
        var c := PubkeyTweak(op, nPubkey.value, tweakBytes);
        var o := lib.pubkeyTweak(op, nPubkey.value, tweakBytes);
        Invoke(c, [nTweak.value]);
        Record(calls0, p0.calls, [c]);
        var ok := RequireSuccess(o.status, PubTweakMessage(op));
        if ok.Err? {
          assert run == Fail(ok.error, p0.calls + [c]);
          r := Err(ok.error);
        } else {
          ghost var s0 := SerializePubkeyRun(lib, o.value);
          assert run == Run(s0.result, p0.calls + [c] + s0.calls);
          r := SerializePubkey(o.value);
          Record(calls0, p0.calls + [c], s0.calls);
        }
      }
      Close();
    }

    method PubKeyTweakAdd(pubkey: array<uint8>, tweak: array<uint8>) returns (r: Result<Bytes>)
      requires Valid() && Idle()
      modifies this
      ensures Valid() && Idle()
      ensures r == PubKeyTweakRun(lib, Add, old(pubkey[..]), old(tweak[..])).result
      ensures calls == old(calls) + PubKeyTweakRun(lib, Add, old(pubkey[..]), old(tweak[..])).calls
    {
      r := PubKeyTweak(Add, pubkey, tweak);
    }

    method PubKeyTweakMul(pubkey: array<uint8>, tweak: array<uint8>) returns (r: Result<Bytes>)
      requires Valid() && Idle()
      modifies this
      ensures Valid() && Idle()
      ensures r == PubKeyTweakRun(lib, Mul, old(pubkey[..]), old(tweak[..])).result
      ensures calls == old(calls) + PubKeyTweakRun(lib, Mul, old(pubkey[..]), old(tweak[..])).calls
    {
      r := PubKeyTweak(Mul, pubkey, tweak);
    }

    /** `pubkeys.map { allocPublicKey(it) }` inside the open block: parses the
        keys in order, and the first that fails throws. */
    method ParseKeys(pubkeys: array<array<uint8>>) returns (r: Result<seq<Pubkey>>)
      requires Valid()
      modifies this
      ensures Valid()
      ensures r == ParseAllRun(lib, old(Snapshot(pubkeys[..]))).result
      ensures calls == old(calls) + ParseAllRun(lib, old(Snapshot(pubkeys[..]))).calls
    {
      ghost var keys := Snapshot(pubkeys[..]);
      ghost var calls0 := calls;
      var parsed: seq<Pubkey> := [];
      var i := 0;
      while i < pubkeys.Length
        invariant 0 <= i <= pubkeys.Length
        invariant Valid()
        invariant ParseAllRun(lib, keys[..i]).result == Ok(parsed)
        invariant calls == calls0 + ParseAllRun(lib, keys[..i]).calls
      {
        ghost var before := ParseAllRun(lib, keys[..i]);
        var p;
        p := AllocPublicKey(pubkeys[i]);
        ParseAllExtend(lib, keys, i);
        Record(calls0, before.calls, ParsePubkeyRun(lib, keys[i]).calls);
        if p.Err? {
          ParseAllStops(lib, keys, i + 1);
          return Err(p.error);
        }
        parsed := parsed + [p.value];
        i := i + 1;
      }
      assert keys[..i] == keys;
      r := Ok(parsed);
    }

    /** Checks every key's size, parses the keys in order (the first failure
        throws), then combines all of them. */
    method PubKeyCombine(pubkeys: array<array<uint8>>) returns (r: Result<Bytes>)
      requires Valid() && Idle()
      modifies this
      ensures Valid() && Idle()
      ensures r == PubKeyCombineRun(lib, old(Snapshot(pubkeys[..]))).result
      ensures calls == old(calls) + PubKeyCombineRun(lib, old(Snapshot(pubkeys[..]))).calls
    {
      ghost var keys := Snapshot(pubkeys[..]);
      var i := 0;
      while i < pubkeys.Length
        invariant 0 <= i <= pubkeys.Length
        invariant AllPubkeyLengths(keys[..i])
      {
        if !IsPubkeyLength(pubkeys[i].Length) {
          assert !IsPubkeyLength(|keys[i]|);
          return Err(IllegalArgument);
        }
        assert keys[..i + 1] == keys[..i] + [keys[i]];
        i := i + 1;
      }
      assert keys[..i] == keys;
      ghost var ps := ParseAllRun(lib, keys);
      ghost var calls0 := calls;
      var parsed;
      parsed := ParseKeys(pubkeys);
      if parsed.Err? {
        r := Err(parsed.error);
      } else {
        var c := Call.PubkeyCombine(parsed.value, pubkeys.Length);
        var o := lib.pubkeyCombine(parsed.value, pubkeys.Length);
        Invoke(c, []);
        Record(calls0, ps.calls, [c]);
        var ok := RequireSuccess(o.status, CallFailed("secp256k1_ec_pubkey_combine() failed"));
        if ok.Err? {
          r := Err(ok.error);
        } else {
          ghost var s0 := SerializePubkeyRun(lib, o.value);
          r := SerializePubkey(o.value);
          Record(calls0, ps.calls + [c], s0.calls);
        }
      }
      Close();
    }

    method Ecdh(privkey: array<uint8>, pubkey: array<uint8>) returns (r: Result<Bytes>)
      requires Valid() && Idle()
      modifies this
      ensures Valid() && Idle()
      ensures r == EcdhRun(lib, old(privkey[..]), old(pubkey[..])).result
      ensures calls == old(calls) + EcdhRun(lib, old(privkey[..]), old(pubkey[..])).calls
    {
      if privkey.Length != 32 || !IsPubkeyLength(pubkey.Length) {
        return Err(IllegalArgument);
      }
      ghost var run := EcdhRun(lib, privkey[..], pubkey[..]);
      ghost var calls0 := calls;
      ghost var p0 := ParsePubkeyRun(lib, pubkey[..]);
      var nPubkey;
      nPubkey := AllocPublicKey(pubkey);
      if nPubkey.Err? {
        assert run == Fail(p0.result.error, p0.calls);
        r := Err(nPubkey.error);
      } else {
        var nPrivkey;
        nPrivkey := ToNat(privkey);
        var c := Call.Ecdh(nPubkey.value, privkey[..]);
        var o := lib.ecdh(nPubkey.value, privkey[..]);
        Invoke(c, [nPrivkey.value]);
        Record(calls0, p0.calls, [c]);
        var ok := RequireSuccess(o.status, CallFailed("secp256k1_ecdh() failed"));
        if ok.Err? {
          r := Err(ok.error);
        } else {
          r := Ok(o.value);
        }
      }
      Close();
    }

    method EcdsaRecover(sig: array<uint8>, message: array<uint8>, recid: int) returns (r: Result<Bytes>)
      requires Valid() && Idle()
      modifies this
      ensures Valid() && Idle()
      ensures r == EcdsaRecoverRun(lib, old(sig[..]), old(message[..]), recid).result
      ensures calls == old(calls) + EcdsaRecoverRun(lib, old(sig[..]), old(message[..]), recid).calls
    {
      if sig.Length != 64 || message.Length != 32 {
        return Err(IllegalArgument);
      }
      var sigBytes, messageBytes := sig[..], message[..];
      ghost var run := EcdsaRecoverRun(lib, sigBytes, messageBytes, recid);
      ghost var calls0 := calls;
      var nSig;
      nSig := ToNat(sig);
      var c := RecoverableSignatureParseCompact(sigBytes, recid);
      var o := lib.recoverableSignatureParseCompact(sigBytes, recid);
      Invoke(c, [nSig.value]);
      var ok := RequireSuccess(o.status, CallFailed("secp256k1_ecdsa_recoverable_signature_parse_compact() failed"));
      if ok.Err? {
        r := Err(ok.error);
      } else {
        var nMessage;
        nMessage := ToNat(message);
        var c2 := Call.EcdsaRecover(o.value, messageBytes);
        var o2 := lib.ecdsaRecover(o.value, messageBytes);
        RecoverPinned(o.value, messageBytes, nMessage.value);
        Invoke(c2, [nMessage.value]);
        Record(calls0, [c], [c2]);
        var ok2 := RequireSuccess(o2.status, CallFailed("secp256k1_ecdsa_recover() failed"));
        if ok2.Err? {
          assert run == Fail(ok2.error, [c, c2]);
          r := Err(ok2.error);
        } else {
          ghost var s0 := SerializePubkeyRun(lib, o2.value);
          assert run == Run(s0.result, [c, c2] + s0.calls);
          r := SerializePubkey(o2.value);
          Record(calls0, [c, c2], s0.calls);
        }
      }
      Close();
    }

    /** The recovering call of `ecdsaRecover` is handed a live pin on its
        message, and reads within it. */
    lemma RecoverPinned(sig: RecoverableSignature, msg: Bytes, p: nat)
      requires |msg| == 32 && PinnedAs(p, msg)
      ensures ReadsInBounds(Call.EcdsaRecover(sig, msg))
      ensures Live(Call.EcdsaRecover(sig, msg), [p])
    {
    }

    /** Serializes in DER into a 73-byte buffer and reads back as many bytes as
        the library reports writing. */
    method Compact2der(sig: array<uint8>) returns (r: Result<Bytes>)
      requires Valid() && Idle()
      modifies this
      ensures Valid() && Idle()
      ensures r == Compact2derRun(lib, old(sig[..])).result
      ensures calls == old(calls) + Compact2derRun(lib, old(sig[..])).calls
    {
      if sig.Length != 64 {
        return Err(IllegalArgument);
      }
      ghost var run := Compact2derRun(lib, sig[..]);
      ghost var calls0 := calls;
      ghost var p0 := ParseSignatureRun(lib, sig[..]);
      var nSig;
      nSig := AllocSignature(sig);
      if nSig.Err? {
        assert run == Fail(p0.result.error, p0.calls);
        r := Err(nSig.error);
      } else {
        var len: nat := 73;
        var c := SignatureSerializeDer(nSig.value, len);
        var w := lib.signatureSerializeDer(nSig.value);
        Invoke(c, []);
        Record(calls0, p0.calls, [c]);
        len := w.len;
        var ok := RequireSuccess(w.status, CallFailed("secp256k1_ecdsa_signature_serialize_der() failed"));
        if ok.Err? {
          r := Err(ok.error);
        } else {
          r := Ok(w.buf[..len]);
        }
      }
      Close();
    }

    method VerifySchnorr(signature: array<uint8>, data: array<uint8>, pub: array<uint8>) returns (r: Result<bool>)
      requires Valid() && Idle()
      modifies this
      ensures Valid() && Idle()
      ensures r == VerifySchnorrRun(lib, old(signature[..]), old(data[..]), old(pub[..])).result
      ensures calls == old(calls) + VerifySchnorrRun(lib, old(signature[..]), old(data[..]), old(pub[..])).calls
    {
      if signature.Length != 64 || data.Length != 32 || pub.Length != 32 {
        return Err(IllegalArgument);
      }
      var signatureBytes, dataBytes, pubBytes := signature[..], data[..], pub[..];
      ghost var run := VerifySchnorrRun(lib, signatureBytes, dataBytes, pubBytes);
      ghost var calls0 := calls;
      var nPub;
      nPub := ToNat(pub);
      var c := XonlyPubkeyParse(pubBytes);
      var o := lib.xonlyPubkeyParse(pubBytes);
      Invoke(c, [nPub.value]);
      var ok := RequireSuccess(o.status, CallFailed("secp256k1_xonly_pubkey_parse() failed"));
      if ok.Err? {
        r := Err(ok.error);
      } else {
        var nData, nSig;
        nData := ToNat(data);
        nSig := ToNat(signature);
        var c2 := SchnorrsigVerify(signatureBytes, dataBytes, 32, o.value);
        var status := lib.schnorrsigVerify(signatureBytes, dataBytes, 32, o.value);
        SchnorrVerifyPinned(signatureBytes, dataBytes, o.value, nSig.value, nData.value);
        Invoke(c2, [nSig.value, nData.value]);
        Record(calls0, [c], [c2]);
        assert run == Run(Ok(status == 1), [c, c2]);
        r := Ok(status == 1);
      }
      Close();
    }

    /** The verifying call of `verifySchnorr` is handed live pins on the
        signature and the message, in that order, and reads within them. */
    lemma SchnorrVerifyPinned(sig: Bytes, msg: Bytes, pubkey: XOnlyPubkey, p: nat, q: nat)
      requires |sig| == 64 && |msg| == 32 && PinnedAs(p, sig) && PinnedAs(q, msg)
      ensures ReadsInBounds(SchnorrsigVerify(sig, msg, 32, pubkey))
      ensures Live(SchnorrsigVerify(sig, msg, 32, pubkey), [p, q])
    {
    }

    method SignSchnorr(data: array<uint8>, sec: array<uint8>, auxrand32: Option<array<uint8>>) returns (r: Result<Bytes>)
      requires Valid() && Idle()
      modifies this
      ensures Valid() && Idle()
      ensures r == SignSchnorrRun(lib, old(data[..]), old(sec[..]), old(Contents(auxrand32))).result
      ensures calls == old(calls) + SignSchnorrRun(lib, old(data[..]), old(sec[..]), old(Contents(auxrand32))).calls
    {
      if sec.Length != 32 || data.Length != 32 || (auxrand32.Some? && auxrand32.value.Length != 32) {
        return Err(IllegalArgument);
      }
      var dataBytes, secBytes := data[..], sec[..];
      var aux := Contents(auxrand32);
      ghost var calls0 := calls;
      var nSec, nData, nAuxrand32;
      nSec := ToNat(sec);
      nData := ToNat(data);
      nAuxrand32 := PinOptional(auxrand32);
      var c := KeypairCreate(secBytes);
      var kp := lib.keypairCreate(secBytes);
      Invoke(c, [nSec.value]);
      var ok := RequireSuccess(kp.status, CallFailed("secp256k1_keypair_create() failed"));
      if ok.Err? {
        SignSchnorrKeypairFails(lib, dataBytes, secBytes, aux);
        r := Err(ok.error);
      } else {
        SignSchnorrSigns(lib, dataBytes, secBytes, aux);
        var c2 := SchnorrsigSign32(dataBytes, kp.value, aux);
        var o := lib.schnorrsigSign32(dataBytes, kp.value, aux);
        Sign32Pinned(dataBytes, kp.value, aux, nData.value, nAuxrand32);
        Invoke(c2, [nData.value] + nAuxrand32);
        Record(calls0, [c], [c2]);
        // the source reuses the ECDSA message for a failed Schnorr signature
        var ok2 := RequireSuccess(o.status, CallFailed("secp256k1_ecdsa_sign() failed"));
        if ok2.Err? {
          r := Err(ok2.error);
        } else {
          r := Ok(o.value);
        }
      }
      Close();
    }

    /** The signing call of `signSchnorr` is handed live pins on its message
        and its auxiliary randomness, and reads within them. */
    lemma Sign32Pinned(msg: Bytes, keypair: Keypair, auxRand: Option<Bytes>, p: nat, auxPins: seq<nat>)
      requires |msg| == 32 && (auxRand.Some? ==> |auxRand.value| == 32)
      requires PinnedAs(p, msg)
      requires auxRand.None? ==> auxPins == []
      requires auxRand.Some? ==> |auxPins| == 1 && PinnedAs(auxPins[0], auxRand.value)
      ensures ReadsInBounds(SchnorrsigSign32(msg, keypair, auxRand))
      ensures Live(SchnorrsigSign32(msg, keypair, auxRand), [p] + auxPins)
    {
    }

    /** `cleanup`: destroys the context, which the lazy delegate creates
        first if no operation ever did. Nothing stops a second call, which
        destroys it again. */
    method Cleanup()
      modifies this
      ensures ctx == Destroyed
      ensures calls == old(calls) + [ContextDestroy]
    {
      if ctx == Unborn {
        ctx := Created(CONTEXT_FLAGS);
      }
      calls := calls + [ContextDestroy];
      ctx := Destroyed;
    }
  }
}
