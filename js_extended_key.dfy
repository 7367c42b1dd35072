/** The JS `ExtendedKey`: an immutable pair of a node of the external BIP-32
    library and the derivation path that led to it. The library, the path's
    own `derive` and the key conversions are parameters. */
module JsExtendedKey {
  import opened Kotlin

  /** One step of a derivation path: a child index and whether it is hardened. */
  datatype DerivationAxis = DerivationAxis(number: int, hardened: bool)

  /** What `ExtendedKey` uses of the world around it: the node's nullable
      private key as bytes, the node's two child derivations (which throw,
      for instance, for a hardened child of a node without a private key),
      the path's `derive`, `KMMECSecp256k1PrivateKey.secp256k1FromBytes`
      (which may reject the bytes) and `getPublicKey` on a private key. */
  datatype Env<!Node, !Path> = Env(
    privateKeyOf: Node -> Option<Bytes>,
    deriveChild: (Node, int) -> Result<Node>,
    deriveHardened: (Node, int) -> Result<Node>,
    pathDerive: (Path, DerivationAxis) -> Path,
    secp256k1FromBytes: Bytes -> Result<PrivateKey>,
    getPublicKey: PrivateKey -> PublicKey
  )

  datatype ExtendedKey<Node, Path> = ExtendedKey(bip32: Node, path: Path)

  /** `KMMECSecp256k1PrivateKey` and `KMMECSecp256k1PublicKey`, by their bytes. */
  datatype PrivateKey = PrivateKey(raw: Bytes)
  datatype PublicKey = PublicKey(raw: Bytes)
  datatype KeyPair = KeyPair(privateKey: PrivateKey, publicKey: PublicKey)

  /** `path()`: the path the key was built with. */
  function GetPath<Node, Path>(key: ExtendedKey<Node, Path>): (r: Path)
    ensures key == ExtendedKey(key.bip32, r)
  {
    key.path
  }

  /** `privateKey()`: the node's private key bytes, converted; `!!` throws
      when the node has none. */
  function GetPrivateKey<Node, Path>(env: Env<Node, Path>, key: ExtendedKey<Node, Path>): (r: Result<PrivateKey>)
    ensures env.privateKeyOf(key.bip32).None? ==> r == Err(NullPointer)
    ensures env.privateKeyOf(key.bip32).Some? ==> r == env.secp256k1FromBytes(env.privateKeyOf(key.bip32).value)
  {
    match env.privateKeyOf(key.bip32)
    case None => Err(NullPointer)
    case Some(bytes) => env.secp256k1FromBytes(bytes)
  }

  /** `publicKey()`: the public key of `privateKey()`, failing exactly when it fails. */
  function GetPublicKey<Node, Path>(env: Env<Node, Path>, key: ExtendedKey<Node, Path>): (r: Result<PublicKey>)
    ensures r.Ok? <==> GetPrivateKey(env, key).Ok?
    ensures r.Err? ==> r.error == GetPrivateKey(env, key).error
    ensures env.privateKeyOf(key.bip32).None? ==> r == Err(NullPointer)
    ensures r.Ok? ==> r.value == env.getPublicKey(GetPrivateKey(env, key).value)
  {
    var privateKey :- GetPrivateKey(env, key);
    Ok(env.getPublicKey(privateKey))
  }

  /** `keyPair()`: `privateKey()` together with `publicKey()`. */
  function GetKeyPair<Node, Path>(env: Env<Node, Path>, key: ExtendedKey<Node, Path>): (r: Result<KeyPair>)
    ensures r.Ok? <==> GetPrivateKey(env, key).Ok?
    ensures env.privateKeyOf(key.bip32).None? ==> r == Err(NullPointer)
    ensures r.Ok? ==> r.value.privateKey == GetPrivateKey(env, key).value
    ensures r.Ok? ==> r.value.publicKey == GetPublicKey(env, key).value
    ensures r.Ok? ==> r.value.publicKey == env.getPublicKey(r.value.privateKey)
  {
    var privateKey :- GetPrivateKey(env, key);
    match GetPublicKey(env, key)
    case Err(e) => Err(e)
    case Ok(publicKey) => Ok(KeyPair(privateKey, publicKey))
  }

  /** The child node `derive(axis)` asks the library for. */
  function ChildNode<Node, Path>(env: Env<Node, Path>, node: Node, axis: DerivationAxis): Result<Node> {
    if axis.hardened then env.deriveHardened(node, axis.number) else env.deriveChild(node, axis.number)
  }

  /** `derive(axis)`: a new key whose node is the hardened child when the axis
      says so and the ordinary child otherwise, and whose path is extended by
      the axis; a failed child derivation throws. The parent is a value and
      stays as it was. */
  function Derive<Node, Path>(env: Env<Node, Path>, key: ExtendedKey<Node, Path>, axis: DerivationAxis): (r: Result<ExtendedKey<Node, Path>>)
    ensures axis.hardened ==>
      (r.Ok? <==> env.deriveHardened(key.bip32, axis.number).Ok?) &&
      (r.Ok? ==> r.value.bip32 == env.deriveHardened(key.bip32, axis.number).value) &&
      (r.Err? ==> r.error == env.deriveHardened(key.bip32, axis.number).error)
    ensures !axis.hardened ==>
      (r.Ok? <==> env.deriveChild(key.bip32, axis.number).Ok?) &&
      (r.Ok? ==> r.value.bip32 == env.deriveChild(key.bip32, axis.number).value) &&
      (r.Err? ==> r.error == env.deriveChild(key.bip32, axis.number).error)
    ensures r.Ok? ==> r.value.path == env.pathDerive(key.path, axis)
  {
    var derivedBip32 :- ChildNode(env, key.bip32, axis);
    Ok(ExtendedKey(derivedBip32, env.pathDerive(key.path, axis)))
  }

  // ---------------------------------------------------------------------------
  // Derivation along several axes, as callers chain `derive`.

  function DeriveAlong<Node, Path>(env: Env<Node, Path>, key: ExtendedKey<Node, Path>, axes: seq<DerivationAxis>): Result<ExtendedKey<Node, Path>>
    decreases |axes|
  {
    if axes == [] then Ok(key)
    else
      var child :- Derive(env, key, axes[0]);
      DeriveAlong(env, child, axes[1..])
  }

  /** The node reached, and whether and how a derivation fails, depend on the
      starting node and the axes only: the path is bookkeeping and never feeds
      into the key material. */
  lemma {:induction false} NodeIgnoresPath<Node, Path>(env: Env<Node, Path>, node: Node, path1: Path, path2: Path, axes: seq<DerivationAxis>)
    ensures var r1, r2 := DeriveAlong(env, ExtendedKey(node, path1), axes), DeriveAlong(env, ExtendedKey(node, path2), axes);
      (r1.Ok? <==> r2.Ok?) && (r1.Ok? ==> r1.value.bip32 == r2.value.bip32) && (r1.Err? ==> r1.error == r2.error)
    decreases |axes|
  {
    if axes != [] {
      var child1 := Derive(env, ExtendedKey(node, path1), axes[0]);
      var child2 := Derive(env, ExtendedKey(node, path2), axes[0]);
      if child1.Ok? {
        assert child1.value.bip32 == child2.value.bip32;
        NodeIgnoresPath(env, child1.value.bip32, child1.value.path, child2.value.path, axes[1..]);
      }
    }
  }

  /** Likewise the path reached depends on the starting path and the axes only. */
  lemma {:induction false} PathIgnoresNode<Node, Path>(env: Env<Node, Path>, node1: Node, node2: Node, path: Path, axes: seq<DerivationAxis>)
    ensures var r1, r2 := DeriveAlong(env, ExtendedKey(node1, path), axes), DeriveAlong(env, ExtendedKey(node2, path), axes);
      r1.Ok? && r2.Ok? ==> r1.value.path == r2.value.path
    decreases |axes|
  {
    if axes != [] {
      var child1 := Derive(env, ExtendedKey(node1, path), axes[0]);
      var child2 := Derive(env, ExtendedKey(node2, path), axes[0]);
      if child1.Ok? && child2.Ok? {
        assert child1.value.path == child2.value.path;
        PathIgnoresNode(env, child1.value.bip32, child2.value.bip32, child1.value.path, axes[1..]);
      }
    }
  }

  /** Deriving along `a + b` is deriving along `a`, then along `b`; a failure
      along `a` ends the whole derivation. */
  lemma {:induction false} DeriveAlongAppend<Node, Path>(env: Env<Node, Path>, key: ExtendedKey<Node, Path>, a: seq<DerivationAxis>, b: seq<DerivationAxis>)
    ensures var ra := DeriveAlong(env, key, a);
      DeriveAlong(env, key, a + b) == if ra.Ok? then DeriveAlong(env, ra.value, b) else Err(ra.error)
    decreases |a|
  {
    if a != [] {
      assert (a + b)[0] == a[0];
      assert (a + b)[1..] == a[1..] + b;
      var child := Derive(env, key, a[0]);
      if child.Ok? {
        DeriveAlongAppend(env, child.value, a[1..], b);
      }
    } else {
      assert a + b == b;
    }
  }

  /** When a path is the list of its axes and `derive` appends, a key reached
      along `axes` records exactly the starting path followed by `axes`. */
  lemma {:induction false} PathRecordsAxes<Node>(env: Env<Node, seq<DerivationAxis>>, key: ExtendedKey<Node, seq<DerivationAxis>>, axes: seq<DerivationAxis>)
    requires forall p: seq<DerivationAxis>, axis: DerivationAxis :: env.pathDerive(p, axis) == p + [axis]
    ensures var r := DeriveAlong(env, key, axes); r.Ok? ==> r.value.path == key.path + axes
    decreases |axes|
  {
    if axes != [] {
      var child := Derive(env, key, axes[0]);
      if child.Ok? {
        assert child.value.path == key.path + [axes[0]];
        PathRecordsAxes(env, child.value, axes[1..]);
        assert key.path + [axes[0]] + axes[1..] == key.path + axes;
      }
    }
  }
}
