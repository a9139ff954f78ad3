/**
 * The Bitcoin and PSBT data the input signer reads and writes, and the cryptographic
 * collaborators it calls.  Keys, hashes and signatures are plain numbers: the signer
 * only compares, stores and forwards them, so their internal structure does not matter.
 */
module BitcoinTypes {
  import opened Wrappers
  import opened Bytes

  type SecretKey = nat
  /** An x-only (BIP340) public key: the x coordinate of a curve point. */
  type XOnly = nat
  type Fingerprint = nat
  type Txid = nat
  type LeafHash = nat
  type TapNodeHash = nat
  /** A 32-byte digest handed to a signing primitive. */
  type Msg = nat

  /** `secp256k1::PublicKey`: a curve point, identified by its x coordinate and the parity of y. */
  datatype Point = Point(x: XOnly, oddY: bool)

  /** `bitcoin::PublicKey`: a point plus its serialisation flag. */
  datatype BtcPublicKey = BtcPublicKey(compressed: bool, inner: Point)

  /** The x-only key `XOnlyPublicKey::from(point)`. */
  function XOnlyOf(p: Point): XOnly {
    p.x
  }

  /** `XOnlyPublicKey::public_key(Parity::Even)`: lifts an x-only key to the even-y point. */
  function LiftEven(x: XOnly): (p: Point)
    ensures XOnlyOf(p) == x && !p.oddY
  {
    Point(x, false)
  }

  datatype ChildNumber = Normal(index: nat) | Hardened(index: nat)
  type DerivationPath = seq<ChildNumber>

  /** `bip32::KeySource`: master fingerprint and full derivation path, as recorded on a PSBT input. */
  datatype KeySource = KeySource(fingerprint: Fingerprint, path: DerivationPath)

  datatype Xpub = Xpub(publicKey: Point, chainCode: nat)
  datatype Xpriv = Xpriv(privateKey: SecretKey, chainCode: nat)

  datatype OutPoint = OutPoint(txid: Txid, vout: nat)
  datatype TxIn = TxIn(previousOutput: OutPoint)
  datatype TxOut = TxOut(value: nat, scriptPubkey: seq<u8>)
  datatype Transaction = Transaction(version: int, input: seq<TxIn>, output: seq<TxOut>, lockTime: nat)

  /** `ecdsa::Signature`: a signature and the sighash type it commits to. */
  datatype EcdsaSig = EcdsaSig(signature: nat, sighashType: nat)
  /** `taproot::Signature`. */
  datatype SchnorrSig = SchnorrSig(signature: nat, sighashType: nat)

  /**
   * One PSBT input (BIP174, extended by BIP371).  `bip32Derivation` and `tapKeyOrigins`
   * are ordered maps that the signer iterates, so they are kept as their entry lists in
   * iteration order; the maps it only looks up and inserts into are Dafny maps.
   */
  datatype PsbtInput = PsbtInput(
    nonWitnessUtxo: Option<Transaction>,
    witnessUtxo: Option<TxOut>,
    partialSigs: map<BtcPublicKey, EcdsaSig>,
    sighashType: Option<nat>,
    bip32Derivation: seq<(Point, KeySource)>,
    finalScriptSig: Option<seq<u8>>,
    finalScriptWitness: Option<seq<seq<u8>>>,
    tapKeySig: Option<SchnorrSig>,
    tapScriptSigs: map<(XOnly, LeafHash), SchnorrSig>,
    tapKeyOrigins: seq<(XOnly, (seq<LeafHash>, KeySource))>,
    tapInternalKey: Option<XOnly>,
    tapMerkleRoot: Option<TapNodeHash>)

  /** An input carrying a final scriptSig or witness is closed to signing. */
  predicate IsFinalized(input: PsbtInput) {
    input.finalScriptSig.Some? || input.finalScriptWitness.Some?
  }

  /** The PSBT a signing pass mutates in place; the caller owns it. */
  class Psbt {
    var unsignedTx: Transaction
    var inputs: seq<PsbtInput>

    constructor (unsignedTx: Transaction, inputs: seq<PsbtInput>)
      ensures this.unsignedTx == unsignedTx && this.inputs == inputs
    {
      this.unsignedTx := unsignedTx;
      this.inputs := inputs;
    }
  }

  /** `sighash::Prevouts`: the spent outputs a taproot sighash commits to. */
  datatype Prevouts = One(index: nat, out: TxOut) | All(outs: seq<TxOut>)

  /** Causes reported by the sighash routines of the Bitcoin library, kept opaque. */
  datatype TaprootError = TaprootError(code: nat)
  datatype PsbtSignError = PsbtSignError(code: nat)

  /** `SignerError`, every variant, including those this core never raises itself. */
  datatype SignerError =
    | MissingKey
    | InvalidKey
    | UserCanceled
    | InputIndexOutOfRange
    | MissingNonWitnessUtxo
    | InvalidNonWitnessUtxo
    | MissingWitnessUtxo
    | MissingWitnessScript
    | MissingHdKeypath
    | NonStandardSighash
    | InvalidSighash
    | SighashTaproot(taprootError: TaprootError)
    | Psbt(signError: PsbtSignError)
    | External(message: string)

  type Outcome = Result<(), SignerError>

  /**
   * The cryptographic library the signer calls, as uninterpreted functions.  Each field
   * is the one call of the Rust source named beside it.
   */
  datatype Crypto = Crypto(
    // secp256k1::PublicKey::from_secret_key
    secretPub: SecretKey -> Point,
    // Xpub::fingerprint
    xpubFingerprint: Xpub -> Fingerprint,
    // Xpriv::derive_priv(..).unwrap().private_key
    derivePriv: (Xpriv, DerivationPath) -> SecretKey,
    // Psbt::sighash_ecdsa: the digest and the resolved ECDSA sighash type, or an error
    ecdsaSighash: (Transaction, seq<PsbtInput>, nat) -> Result<(Msg, nat), PsbtSignError>,
    // Secp256k1::sign_ecdsa_low_r
    signEcdsaLowR: (Msg, SecretKey) -> nat,
    // Keypair::tap_tweak(merkle_root).to_keypair(), as the tweaked secret
    tapTweak: (SecretKey, Option<TapNodeHash>) -> SecretKey,
    // Secp256k1::sign_schnorr_no_aux_rand
    signSchnorr: (Msg, SecretKey) -> nat,
    // SighashCache::taproot_signature_hash(index, prevouts, annex = None, leaf_hash_code_separator, type)
    taprootSighash: (Transaction, nat, Prevouts, Option<(LeafHash, nat)>, nat) -> Result<Msg, TaprootError>,
    // Transaction::compute_txid
    computeTxid: Transaction -> Txid)
}
