/**
 * Raw Signer: `InputSigner for PrivateKey`, with `sign_psbt_ecdsa` and `sign_psbt_schnorr`.
 * It decides which PSBT fields receive a signature (BIP174 `partial_sigs`, BIP371
 * `tap_key_sig` and `tap_script_sigs`) and writes them into the caller's PSBT in place.
 *
 * `SignRaw` is the specification of one call; `SignWithPrivateKey` is the in-place
 * implementation proved equal to it; the lemmas state what the source promises of it.
 */
module InputSigner {
  import opened Wrappers
  import opened BitcoinTypes
  import opened TapSighash

  datatype SignerContext = Legacy | Segwitv0 | Tap(isInternalKey: bool)

  /** `bitcoin::PrivateKey` (the network tag plays no part in signing). */
  datatype PrivateKey = PrivateKey(compressed: bool, inner: SecretKey)

  /** `PublicKey::from_private_key`. */
  function PublicKeyOf(c: Crypto, key: PrivateKey): BtcPublicKey {
    BtcPublicKey(key.compressed, c.secretPub(key.inner))
  }

  // ---------------------------------------------------------------------------
  // How a signing call may change one PSBT input

  /** `b` is `a` except possibly for its three signature fields. */
  predicate SameExceptSignatures(a: PsbtInput, b: PsbtInput) {
    a.(partialSigs := b.partialSigs, tapKeySig := b.tapKeySig, tapScriptSigs := b.tapScriptSigs) == b
  }

  /** Every signature `a` holds is still in `b`, unchanged. */
  predicate KeepsSignatures(a: PsbtInput, b: PsbtInput) {
    && (forall k | k in a.partialSigs :: k in b.partialSigs && b.partialSigs[k] == a.partialSigs[k])
    && (a.tapKeySig.Some? ==> b.tapKeySig == a.tapKeySig)
    && (forall k | k in a.tapScriptSigs :: k in b.tapScriptSigs && b.tapScriptSigs[k] == a.tapScriptSigs[k])
  }

  /** `b` is `a` with signatures added and none removed or replaced. */
  predicate Extends(a: PsbtInput, b: PsbtInput) {
    SameExceptSignatures(a, b) && KeepsSignatures(a, b)
  }

  /** Only input `index` may differ, and it may only gain signatures. */
  predicate ExtendsAt(a: seq<PsbtInput>, b: seq<PsbtInput>, index: nat) {
    && |a| == |b|
    && (forall j :: 0 <= j < |a| && j != index ==> b[j] == a[j])
    && (index < |a| ==> Extends(a[index], b[index]))
  }

  lemma ExtendsTransitive(a: PsbtInput, b: PsbtInput, d: PsbtInput)
    requires Extends(a, b) && Extends(b, d)
    ensures Extends(a, d)
  {
  }

  // ---------------------------------------------------------------------------
  // sign_psbt_ecdsa and sign_psbt_schnorr

  /** The input after `sign_psbt_ecdsa`: a low-R ECDSA signature stored under the signer's public key. */
  function WithEcdsaSig(c: Crypto, input: PsbtInput, sk: SecretKey, pubkey: BtcPublicKey, msg: Msg, sighashType: nat): PsbtInput {
    input.(partialSigs := input.partialSigs[pubkey := EcdsaSig(c.signEcdsaLowR(msg, sk), sighashType)])
  }

  /** The key `sign_psbt_schnorr` signs with: tweaked by the merkle root for a key spend, untweaked for a leaf. */
  function SchnorrSigningKey(c: Crypto, sk: SecretKey, leafHash: Option<LeafHash>, merkleRoot: Option<TapNodeHash>): SecretKey {
    if leafHash.None? then c.tapTweak(sk, merkleRoot) else sk
  }

  /** The input after `sign_psbt_schnorr`: the key-spend signature, or the script signature under (key, leaf). */
  function WithSchnorrSig(c: Crypto, input: PsbtInput, sk: SecretKey, x: XOnly, leafHash: Option<LeafHash>, msg: Msg, sighashType: nat): PsbtInput {
    var sig := SchnorrSig(c.signSchnorr(msg, SchnorrSigningKey(c, sk, leafHash, input.tapMerkleRoot)), sighashType);
    match leafHash
    case Some(lh) => input.(tapScriptSigs := input.tapScriptSigs[(x, lh) := sig])
    case None => input.(tapKeySig := Some(sig))
  }

  /** `sign_psbt_ecdsa`, writing into `psbt.inputs[index]` in place. */
  method SignPsbtEcdsa(c: Crypto, sk: SecretKey, pubkey: BtcPublicKey, psbt: Psbt, index: nat, msg: Msg, sighashType: nat)
    requires index < |psbt.inputs|
    modifies psbt`inputs
    ensures psbt.inputs == old(psbt.inputs)[index := WithEcdsaSig(c, old(psbt.inputs[index]), sk, pubkey, msg, sighashType)]
  {
    var signature := c.signEcdsaLowR(msg, sk);
    // The source verifies the signature here and panics on failure; the check is assumed to pass.
    var input := psbt.inputs[index];
    input := input.(partialSigs := input.partialSigs[pubkey := EcdsaSig(signature, sighashType)]);
    psbt.inputs := psbt.inputs[index := input];
  }

  /** `sign_psbt_schnorr`, writing into `psbt.inputs[index]` in place. */
  method SignPsbtSchnorr(c: Crypto, sk: SecretKey, x: XOnly, leafHash: Option<LeafHash>, psbt: Psbt, index: nat, msg: Msg, sighashType: nat)
    requires index < |psbt.inputs|
    modifies psbt`inputs
    ensures psbt.inputs == old(psbt.inputs)[index := WithSchnorrSig(c, old(psbt.inputs[index]), sk, x, leafHash, msg, sighashType)]
  {
    var input := psbt.inputs[index];
    var keypair := if leafHash.None? then c.tapTweak(sk, input.tapMerkleRoot) else sk;
    var signature := SchnorrSig(c.signSchnorr(msg, keypair), sighashType);
    // The source verifies the signature here and panics on failure; the check is assumed to pass.
    match leafHash {
      case Some(lh) => input := input.(tapScriptSigs := input.tapScriptSigs[(x, lh) := signature]);
      case None => input := input.(tapKeySig := Some(signature));
    }
    psbt.inputs := psbt.inputs[index := input];
  }

  // ---------------------------------------------------------------------------
  // The specification of PrivateKey::sign_input

  /** The taproot key-spend step: sign for the internal key, once. */
  function KeySpend(c: Crypto, sk: SecretKey, x: XOnly, isInternalKey: bool, tx: Transaction, inputs: seq<PsbtInput>, index: nat)
    : (res: (Outcome, seq<PsbtInput>))
    requires index < |inputs|
    ensures ExtendsAt(inputs, res.1, index)
    ensures res.1[index].tapScriptSigs == inputs[index].tapScriptSigs
    ensures res.0.Err? ==> res.1 == inputs
  {
    var input := inputs[index];
    if input.tapInternalKey.Some? && isInternalKey && input.tapKeySig.None? && x == input.tapInternalKey.value then
      match ComputeTapSighash(c, tx, inputs, index, None)
      case Err(e) => (Err(e), inputs)
      case Ok((msg, sighashType)) => (Ok(()), inputs[index := WithSchnorrSig(c, input, sk, x, None, msg, sighashType)])
    else
      (Ok(()), inputs)
  }

  /** The script signature for `leaf` computed on `inputs`, if its digest can be computed. */
  function ScriptPathSig(c: Crypto, sk: SecretKey, tx: Transaction, inputs: seq<PsbtInput>, index: nat, leaf: LeafHash): Option<SchnorrSig> {
    match ComputeTapSighash(c, tx, inputs, index, Some(leaf))
    case Ok((msg, sighashType)) => Some(SchnorrSig(c.signSchnorr(msg, sk), sighashType))
    case Err(_) => None
  }

  /** Inputs whose taproot digests are the same: only signature fields differ. */
  predicate SameSighashInputs(a: seq<PsbtInput>, b: seq<PsbtInput>) {
    |a| == |b| && forall j :: 0 <= j < |a| ==> SameSighashFields(a[j], b[j])
  }

  lemma ExtendsAtKeepsSighash(a: seq<PsbtInput>, b: seq<PsbtInput>, index: nat)
    requires ExtendsAt(a, b, index)
    ensures SameSighashInputs(a, b)
  {
    forall j | 0 <= j < |a| ensures SameSighashFields(a[j], b[j]) {
      if j == index {
        assert SameExceptSignatures(a[j], b[j]);
      }
    }
  }

  /**
   * The script-spend loop over the leaves still to sign, in order, stopping at the first
   * digest error (leaves signed before it stay signed).  Every entry it adds or replaces
   * is under this key and one of these leaves, and holds the untweaked signature of that
   * leaf's digest; on success every leaf has an entry.
   */
  function SignLeaves(c: Crypto, sk: SecretKey, x: XOnly, leaves: seq<LeafHash>, tx: Transaction, inputs: seq<PsbtInput>, index: nat)
    : (res: (Outcome, seq<PsbtInput>))
    requires index < |inputs|
    ensures |res.1| == |inputs|
    ensures forall j :: 0 <= j < |inputs| && j != index ==> res.1[j] == inputs[j]
    ensures SameExceptSignatures(inputs[index], res.1[index])
    ensures res.1[index].partialSigs == inputs[index].partialSigs
    ensures res.1[index].tapKeySig == inputs[index].tapKeySig
    ensures forall k | k in inputs[index].tapScriptSigs :: k in res.1[index].tapScriptSigs
    ensures forall k | k in res.1[index].tapScriptSigs &&
                       (k !in inputs[index].tapScriptSigs || res.1[index].tapScriptSigs[k] != inputs[index].tapScriptSigs[k]) ::
              k.0 == x && k.1 in leaves && ScriptPathSig(c, sk, tx, inputs, index, k.1) == Some(res.1[index].tapScriptSigs[k])
    ensures res.0.Ok? ==> forall l | l in leaves :: (x, l) in res.1[index].tapScriptSigs
    decreases |leaves|
  {
    if leaves == [] then (Ok(()), inputs)
    else
      match ComputeTapSighash(c, tx, inputs, index, Some(leaves[0]))
      case Err(e) => (Err(e), inputs)
      case Ok((msg, sighashType)) =>
        var signed := inputs[index := WithSchnorrSig(c, inputs[index], sk, x, Some(leaves[0]), msg, sighashType)];
        assert SameSighashFields(inputs[index], signed[index]);
        assert SameSighashInputs(inputs, signed);
        var res := SignLeaves(c, sk, x, leaves[1..], tx, signed, index);
        forall l | l in leaves[1..] ensures ScriptPathSig(c, sk, tx, signed, index, l) == ScriptPathSig(c, sk, tx, inputs, index, l) {
          TapSighashIgnoresSignatures(c, tx, signed, inputs, index, Some(l));
        }
        res
  }

  /** The leaf hashes recorded under `x` in `tap_key_origins` (`get(&x)`). */
  function TapLeavesOf(origins: seq<(XOnly, (seq<LeafHash>, KeySource))>, x: XOnly): (r: Option<seq<LeafHash>>)
    ensures r.Some? ==> exists j :: 0 <= j < |origins| && origins[j].0 == x && origins[j].1.0 == r.value
    ensures r.None? <==> forall j :: 0 <= j < |origins| ==> origins[j].0 != x
    decreases |origins|
  {
    if origins == [] then None
    else if origins[0].0 == x then Some(origins[0].1.0)
    else TapLeavesOf(origins[1..], x)
  }

  /** The leaves not yet signed for `x`, in their recorded order. */
  function UnsignedLeaves(leaves: seq<LeafHash>, sigs: map<(XOnly, LeafHash), SchnorrSig>, x: XOnly): (r: seq<LeafHash>)
    ensures |r| <= |leaves|
    ensures forall l :: l in r <==> l in leaves && (x, l) !in sigs
    decreases |leaves|
  {
    if leaves == [] then []
    else if (x, leaves[0]) in sigs then UnsignedLeaves(leaves[1..], sigs, x)
    else [leaves[0]] + UnsignedLeaves(leaves[1..], sigs, x)
  }

  /** Once every leaf has a signature under `x`, the filter leaves nothing to sign. */
  lemma {:induction false} NothingLeftToSign(leaves: seq<LeafHash>, sigs: map<(XOnly, LeafHash), SchnorrSig>, x: XOnly)
    requires forall l | l in leaves :: (x, l) in sigs
    ensures UnsignedLeaves(leaves, sigs, x) == []
    decreases |leaves|
  {
    if leaves != [] {
      assert leaves[0] in leaves;
      NothingLeftToSign(leaves[1..], sigs, x);
    }
  }

  /** The taproot branch: key spend, then the script spends of the leaves still unsigned. */
  function SignTaproot(c: Crypto, sk: SecretKey, x: XOnly, isInternalKey: bool, tx: Transaction, inputs: seq<PsbtInput>, index: nat)
    : (res: (Outcome, seq<PsbtInput>))
    requires index < |inputs|
    ensures ExtendsAt(inputs, res.1, index)
    ensures res.1[index].partialSigs == inputs[index].partialSigs
  {
    var keySpend := KeySpend(c, sk, x, isInternalKey, tx, inputs, index);
    if keySpend.0.Err? then keySpend
    else
      var signed := keySpend.1;
      match TapLeavesOf(signed[index].tapKeyOrigins, x)
      case None => (Ok(()), signed)
      case Some(leaves) =>
        var todo := UnsignedLeaves(leaves, signed[index].tapScriptSigs, x);
        var res := SignLeaves(c, sk, x, todo, tx, signed, index);
        assert KeepsSignatures(signed[index], res.1[index]);
        ExtendsTransitive(inputs[index], signed[index], res.1[index]);
        res
  }

  /** The legacy / segwit v0 branch: one ECDSA signature under the signer's public key, once. */
  function SignEcdsa(c: Crypto, key: PrivateKey, tx: Transaction, inputs: seq<PsbtInput>, index: nat)
    : (res: (Outcome, seq<PsbtInput>))
    requires index < |inputs|
    ensures ExtendsAt(inputs, res.1, index)
  {
    var pubkey := PublicKeyOf(c, key);
    if pubkey in inputs[index].partialSigs then (Ok(()), inputs)
    else match c.ecdsaSighash(tx, inputs, index)
      case Err(e) => (Err(SignerError.Psbt(e)), inputs)
      case Ok((msg, sighashType)) =>
        (Ok(()), inputs[index := WithEcdsaSig(c, inputs[index], key.inner, pubkey, msg, sighashType)])
  }

  /** `PrivateKey::sign_input`: the result and the PSBT inputs afterwards. */
  function SignRaw(c: Crypto, key: PrivateKey, tx: Transaction, inputs: seq<PsbtInput>, index: nat, ctx: SignerContext)
    : (res: (Outcome, seq<PsbtInput>))
    ensures ExtendsAt(inputs, res.1, index)
  {
    if index >= |inputs| || index >= |tx.input| then (Err(InputIndexOutOfRange), inputs)
    else if IsFinalized(inputs[index]) then (Ok(()), inputs)
    else match ctx
      case Tap(isInternalKey) => SignTaproot(c, key.inner, XOnlyOf(PublicKeyOf(c, key).inner), isInternalKey, tx, inputs, index)
      case _ => SignEcdsa(c, key, tx, inputs, index)
  }

  // ---------------------------------------------------------------------------
  // What PrivateKey::sign_input promises

  /** An index outside either the PSBT's inputs or the transaction's inputs is an error, and nothing changes. */
  lemma SignRawRejectsOutOfRange(c: Crypto, key: PrivateKey, tx: Transaction, inputs: seq<PsbtInput>, index: nat, ctx: SignerContext)
    requires index >= |inputs| || index >= |tx.input|
    ensures SignRaw(c, key, tx, inputs, index, ctx) == (Err(InputIndexOutOfRange), inputs)
  {
  }

  /** A finalized input is left exactly as it is, and the call succeeds. */
  lemma SignRawFinalizedIsNoop(c: Crypto, key: PrivateKey, tx: Transaction, inputs: seq<PsbtInput>, index: nat, ctx: SignerContext)
    requires index < |inputs| && index < |tx.input| && IsFinalized(inputs[index])
    ensures SignRaw(c, key, tx, inputs, index, ctx) == (Ok(()), inputs)
  {
  }

  /**
   * Legacy and segwit v0: a key that already has a partial signature is skipped; otherwise
   * exactly one entry, under the signer's public key, is added to that input's
   * `partial_sigs`, and nothing else in the PSBT changes.  A failing ECDSA digest changes nothing.
   */
  lemma EcdsaSignsOnce(c: Crypto, key: PrivateKey, tx: Transaction, inputs: seq<PsbtInput>, index: nat, ctx: SignerContext)
    requires ctx == Legacy || ctx == Segwitv0
    requires index < |inputs| && index < |tx.input| && !IsFinalized(inputs[index])
    ensures var res := SignRaw(c, key, tx, inputs, index, ctx);
      var pubkey := PublicKeyOf(c, key);
      var before := inputs[index].partialSigs;
      && (pubkey in before ==> res == (Ok(()), inputs))
      && (pubkey !in before ==>
            match c.ecdsaSighash(tx, inputs, index)
            case Err(e) => res == (Err(SignerError.Psbt(e)), inputs)
            case Ok((msg, sighashType)) =>
              && res.0 == Ok(())
              && res.1 == inputs[index := inputs[index].(partialSigs := before[pubkey := EcdsaSig(c.signEcdsaLowR(msg, key.inner), sighashType)])]
              && |res.1[index].partialSigs| == |before| + 1)
  {
  }

  /**
   * Taproot key spend: `tap_key_sig` is written only for the internal key, when
   * `is_internal_key` is set and no key signature exists yet; it is then the signature of
   * the key-spend digest by the key tweaked with the input's merkle root.  Script
   * signatures and partial signatures are not touched by this step.
   */
  lemma KeySpendRule(c: Crypto, key: PrivateKey, tx: Transaction, inputs: seq<PsbtInput>, index: nat, isInternalKey: bool)
    requires index < |inputs| && index < |tx.input| && !IsFinalized(inputs[index])
    ensures var res := SignRaw(c, key, tx, inputs, index, Tap(isInternalKey));
      var x := XOnlyOf(c.secretPub(key.inner));
      var input := inputs[index];
      var eligible := isInternalKey && input.tapKeySig.None? && input.tapInternalKey == Some(x);
      && res.1[index].partialSigs == input.partialSigs
      && (res.1[index].tapKeySig != input.tapKeySig ==> eligible)
      && (eligible ==>
            match ComputeTapSighash(c, tx, inputs, index, None)
            case Err(e) => res == (Err(e), inputs)
            case Ok((msg, sighashType)) =>
              res.1[index].tapKeySig == Some(SchnorrSig(c.signSchnorr(msg, c.tapTweak(key.inner, input.tapMerkleRoot)), sighashType)))
  {
  }

  /**
   * Taproot script spend: existing script signatures are never replaced; each new entry is
   * keyed (x-only key, leaf) for a leaf listed under this key in `tap_key_origins`, and
   * holds the untweaked key's signature of that leaf's digest; on success every listed
   * leaf has an entry.  Map keys make duplicates impossible.
   */
  lemma ScriptSpendRule(c: Crypto, key: PrivateKey, tx: Transaction, inputs: seq<PsbtInput>, index: nat, isInternalKey: bool)
    requires index < |inputs| && index < |tx.input| && !IsFinalized(inputs[index])
    ensures var res := SignRaw(c, key, tx, inputs, index, Tap(isInternalKey));
      var x := XOnlyOf(c.secretPub(key.inner));
      var listed := TapLeavesOf(inputs[index].tapKeyOrigins, x);
      var before := inputs[index].tapScriptSigs;
      var after := res.1[index].tapScriptSigs;
      && (forall k | k in before :: k in after && after[k] == before[k])
      && (forall k | k in after && k !in before ::
            && k.0 == x && listed.Some? && k.1 in listed.value
            && ScriptPathSig(c, key.inner, tx, inputs, index, k.1) == Some(after[k]))
      && (res.0.Ok? && listed.Some? ==> forall l | l in listed.value :: (x, l) in after)
  {
    var x := XOnlyOf(c.secretPub(key.inner));
    var keySpend := KeySpend(c, key.inner, x, isInternalKey, tx, inputs, index);
    if keySpend.0.Ok? {
      var signed := keySpend.1;
      ExtendsAtKeepsSighash(inputs, signed, index);
      forall l {
        TapSighashIgnoresSignatures(c, tx, signed, inputs, index, Some(l));
      }
    }
  }

  /** `b` agrees with `a` except for added signatures, input by input. */
  predicate ExtendsAll(a: seq<PsbtInput>, b: seq<PsbtInput>) {
    |a| == |b| && forall j :: 0 <= j < |a| ==> Extends(a[j], b[j])
  }

  lemma ExtendsAtIsExtendsAll(a: seq<PsbtInput>, b: seq<PsbtInput>, index: nat)
    requires ExtendsAt(a, b, index)
    ensures ExtendsAll(a, b)
  {
    forall j | 0 <= j < |a| ensures Extends(a[j], b[j]) {
      if j != index {
        assert b[j] == a[j];
      }
    }
  }

  /** The taproot branch has nothing left to do after it succeeded, however many signatures were added since. */
  lemma SignTaprootStable(c: Crypto, sk: SecretKey, x: XOnly, isInternalKey: bool, tx: Transaction, inputs: seq<PsbtInput>, index: nat, later: seq<PsbtInput>)
    requires index < |inputs|
    requires SignTaproot(c, sk, x, isInternalKey, tx, inputs, index).0.Ok?
    requires ExtendsAll(SignTaproot(c, sk, x, isInternalKey, tx, inputs, index).1, later)
    ensures SignTaproot(c, sk, x, isInternalKey, tx, later, index) == (Ok(()), later)
  {
    var res := SignTaproot(c, sk, x, isInternalKey, tx, inputs, index);
    var signed := KeySpend(c, sk, x, isInternalKey, tx, inputs, index).1;
    assert Extends(res.1[index], later[index]);
    assert KeySpend(c, sk, x, isInternalKey, tx, later, index) == (Ok(()), later);
    match TapLeavesOf(signed[index].tapKeyOrigins, x) {
      case None =>
      case Some(leaves) =>
        assert forall l | l in leaves :: (x, l) in res.1[index].tapScriptSigs;
        NothingLeftToSign(leaves, later[index].tapScriptSigs, x);
    }
  }

  /**
   * A successful call leaves nothing for the same key to do: on the PSBT it produced, or on
   * any PSBT that has since only gained signatures, the same call succeeds and changes
   * nothing.  This is what makes repeated signing passes safe.
   */
  lemma SignRawStable(c: Crypto, key: PrivateKey, tx: Transaction, inputs: seq<PsbtInput>, index: nat, ctx: SignerContext, later: seq<PsbtInput>)
    requires SignRaw(c, key, tx, inputs, index, ctx).0.Ok?
    requires ExtendsAll(SignRaw(c, key, tx, inputs, index, ctx).1, later)
    ensures SignRaw(c, key, tx, later, index, ctx) == (Ok(()), later)
  {
    if index < |inputs| && index < |tx.input| && !IsFinalized(inputs[index]) {
      var res := SignRaw(c, key, tx, inputs, index, ctx);
      assert Extends(res.1[index], later[index]);
      if ctx.Tap? {
        SignTaprootStable(c, key.inner, XOnlyOf(PublicKeyOf(c, key).inner), ctx.isInternalKey, tx, inputs, index, later);
      }
    }
  }

  /** Signing twice with the same key is the same as signing once. */
  lemma SignRawIdempotent(c: Crypto, key: PrivateKey, tx: Transaction, inputs: seq<PsbtInput>, index: nat, ctx: SignerContext)
    requires SignRaw(c, key, tx, inputs, index, ctx).0.Ok?
    ensures var signed := SignRaw(c, key, tx, inputs, index, ctx).1;
      SignRaw(c, key, tx, signed, index, ctx) == (Ok(()), signed)
  {
    var signed := SignRaw(c, key, tx, inputs, index, ctx).1;
    assert ExtendsAll(signed, signed);
    SignRawStable(c, key, tx, inputs, index, ctx, signed);
  }

  // ---------------------------------------------------------------------------
  // The in-place implementation

  /** `PrivateKey::sign_input`, mutating `psbt.inputs[index]` in place. */
  method SignWithPrivateKey(c: Crypto, key: PrivateKey, psbt: Psbt, index: nat, ctx: SignerContext) returns (r: Outcome)
    modifies psbt`inputs
    ensures (r, psbt.inputs) == SignRaw(c, key, psbt.unsignedTx, old(psbt.inputs), index, ctx)
  {
    if index >= |psbt.inputs| || index >= |psbt.unsignedTx.input| {
      return Err(InputIndexOutOfRange);
    }
    if psbt.inputs[index].finalScriptSig.Some? || psbt.inputs[index].finalScriptWitness.Some? {
      return Ok(());
    }
    match ctx {
      case Tap(isInternalKey) =>
        r := SignTaprootInput(c, key.inner, XOnlyOf(PublicKeyOf(c, key).inner), isInternalKey, psbt, index);
      case _ =>
        r := SignEcdsaInput(c, key, psbt, index);
    }
  }

  /** The legacy / segwit v0 branch of `sign_input`. */
  method SignEcdsaInput(c: Crypto, key: PrivateKey, psbt: Psbt, index: nat) returns (r: Outcome)
    requires index < |psbt.inputs|
    modifies psbt`inputs
    ensures (r, psbt.inputs) == SignEcdsa(c, key, psbt.unsignedTx, old(psbt.inputs), index)
  {
    var pubkey := PublicKeyOf(c, key);
    if pubkey in psbt.inputs[index].partialSigs {
      return Ok(());
    }
    var sighash := c.ecdsaSighash(psbt.unsignedTx, psbt.inputs, index);
    if sighash.Err? {
      return Err(SignerError.Psbt(sighash.error));
    }
    SignPsbtEcdsa(c, key.inner, pubkey, psbt, index, sighash.value.0, sighash.value.1);
    return Ok(());
  }

  /** The taproot branch of `sign_input`: the key spend, then the leaves still unsigned. */
  method SignTaprootInput(c: Crypto, sk: SecretKey, x: XOnly, isInternalKey: bool, psbt: Psbt, index: nat) returns (r: Outcome)
    requires index < |psbt.inputs|
    modifies psbt`inputs
    ensures (r, psbt.inputs) == SignTaproot(c, sk, x, isInternalKey, psbt.unsignedTx, old(psbt.inputs), index)
  {
    r := SignKeySpend(c, sk, x, isInternalKey, psbt, index);
    if r.Err? {
      return;
    }
    var origin := TapLeavesOf(psbt.inputs[index].tapKeyOrigins, x);
    if origin.Some? {
      var leaves := UnsignedLeaves(origin.value, psbt.inputs[index].tapScriptSigs, x);
      r := SignScriptSpends(c, sk, x, leaves, psbt, index);
    }
  }

  /** The key-spend step of `sign_input`. */
  method SignKeySpend(c: Crypto, sk: SecretKey, x: XOnly, isInternalKey: bool, psbt: Psbt, index: nat) returns (r: Outcome)
    requires index < |psbt.inputs|
    modifies psbt`inputs
    ensures (r, psbt.inputs) == KeySpend(c, sk, x, isInternalKey, psbt.unsignedTx, old(psbt.inputs), index)
  {
    var internalKey := psbt.inputs[index].tapInternalKey;
    if internalKey.Some? && isInternalKey && psbt.inputs[index].tapKeySig.None? && x == internalKey.value {
      var sighash := ComputeTapSighash(c, psbt.unsignedTx, psbt.inputs, index, None);
      if sighash.Err? {
        return Err(sighash.error);
      }
      SignPsbtSchnorr(c, sk, x, None, psbt, index, sighash.value.0, sighash.value.1);
    }
    return Ok(());
  }

  /** The script-spend loop of `sign_input` over `leaves`, stopping at the first digest error. */
  method SignScriptSpends(c: Crypto, sk: SecretKey, x: XOnly, leaves: seq<LeafHash>, psbt: Psbt, index: nat) returns (r: Outcome)
    requires index < |psbt.inputs|
    modifies psbt`inputs
    ensures (r, psbt.inputs) == SignLeaves(c, sk, x, leaves, psbt.unsignedTx, old(psbt.inputs), index)
  {
    ghost var start := psbt.inputs;
    for i := 0 to |leaves|
      invariant |psbt.inputs| == |start|
      invariant SignLeaves(c, sk, x, leaves[i..], psbt.unsignedTx, psbt.inputs, index)
             == SignLeaves(c, sk, x, leaves, psbt.unsignedTx, start, index)
    {
      var sighash := ComputeTapSighash(c, psbt.unsignedTx, psbt.inputs, index, Some(leaves[i]));
      assert leaves[i..][0] == leaves[i] && leaves[i..][1..] == leaves[i + 1..];
      if sighash.Err? {
        return Err(sighash.error);
      }
      SignPsbtSchnorr(c, sk, x, Some(leaves[i]), psbt, index, sighash.value.0, sighash.value.1);
    }
    return Ok(());
  }
}
