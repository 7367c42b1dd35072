/** The Apple `ECDH` class: two `require` checks on the key sizes, then the
    native ECDH call, whose result is returned as it is. The native function
    is a parameter; the outcome records whether it was called. */
module AppleEcdh {
  import opened Kotlin
  import LibSecp256k1
  import Secp256k1Spec

  /** `Secp256k1Native.ecdh(privateKey, publicKey)`: the shared secret, or
      the exception the native code throws for keys it rejects. */
  type NativeEcdh = (Bytes, Bytes) -> Result<Bytes>

  /** What `ecdh` returns or throws, and the arguments it handed to the native
      call, if it made one. */
  datatype Outcome = Outcome(result: Result<Bytes>, delegated: Option<(Bytes, Bytes)>)

  function Ecdh(native: NativeEcdh, privateKey: Bytes, publicKey: Bytes): (r: Outcome)
    // both checks pass exactly when the native call is made, with the caller's arguments in order
    ensures r.delegated.Some? <==> |privateKey| == 32 && Secp256k1Spec.IsPubkeyLength(|publicKey|)
    ensures r.delegated.Some? ==> r.delegated.value == (privateKey, publicKey)
    // a failed check throws `IllegalArgumentException`; otherwise whatever the
    // native call returns or throws comes back untouched
    ensures r.delegated.None? ==> r.result == Err(IllegalArgument)
    ensures r.delegated.Some? ==> r.result == native(privateKey, publicKey)
  {
    if |privateKey| != 32 then Outcome(Err(IllegalArgument), None)
    else if !(|publicKey| == 33 || |publicKey| == 65) then Outcome(Err(IllegalArgument), None)
    else Outcome(native(privateKey, publicKey), Some((privateKey, publicKey)))
  }

  /** The Apple class and the iOS object accept the same key sizes for ECDH:
      whenever the Apple checks reject the keys, the iOS object throws
      `IllegalArgumentException` before any library call, and whenever they
      pass, the iOS object gets past its own checks. */
  lemma SameGateAsIos(lib: LibSecp256k1.Lib, native: NativeEcdh, privateKey: Bytes, publicKey: Bytes)
    ensures Ecdh(native, privateKey, publicKey).delegated.None? <==>
      Secp256k1Spec.EcdhRun(lib, privateKey, publicKey) == Secp256k1Spec.Fail(IllegalArgument, [])
  {
    if Ecdh(native, privateKey, publicKey).delegated.Some? {
      var run := Secp256k1Spec.EcdhRun(lib, privateKey, publicKey);
      if |publicKey| != 0 {
        assert run.calls != [];
      }
    }
  }
}
