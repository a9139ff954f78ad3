/**
 * Digest Computer for taproot inputs: `compute_tap_sighash`, which resolves the sighash
 * type and chooses the spent outputs the BIP341 signature message commits to, before
 * handing both to the library's `taproot_signature_hash`.
 */
module TapSighash {
  import opened Wrappers
  import opened BitcoinTypes

  /** `TapSighashType::Default`, used when the input records no sighash type. */
  const TAP_SIGHASH_DEFAULT: nat := 0x00
  /** The ANYONECANPAY bit of a sighash type. */
  const SIGHASH_ANYONECANPAY: nat := 0x80
  /** The code-separator position meaning "no OP_CODESEPARATOR executed" (BIP342). */
  const NO_CODE_SEPARATOR: nat := 0xFFFF_FFFF

  /** The hash types BIP341 defines for taproot: 0x00 to 0x03 and 0x81 to 0x83. */
  predicate IsTaprootSighashType(v: nat) {
    v <= 0x03 || 0x81 <= v <= 0x83
  }

  /** `PsbtSighashType::taproot_hash_ty`. */
  function TaprootHashTy(v: nat): (r: Option<nat>)
    ensures r.Some? ==> r.value == v
    ensures r.Some? <==> IsTaprootSighashType(v)
  {
    if IsTaprootSighashType(v) then Some(v) else None
  }

  /** `to_u32() & 0x80 != 0`. */
  predicate IsAnyoneCanPay(sighashType: nat) {
    (sighashType / SIGHASH_ANYONECANPAY) % 2 == 1
  }

  /**
   * The output spent by one input: its `witness_utxo`, or else the referenced output of a
   * `non_witness_utxo` whose txid is the one the transaction input points at.
   */
  function SpentOutput(c: Crypto, input: PsbtInput, txin: TxIn): (r: Option<TxOut>)
    ensures input.witnessUtxo.Some? ==> r == input.witnessUtxo
    ensures input.witnessUtxo.None? && r.Some? ==>
      && input.nonWitnessUtxo.Some?
      && c.computeTxid(input.nonWitnessUtxo.value) == txin.previousOutput.txid
      && txin.previousOutput.vout < |input.nonWitnessUtxo.value.output|
      && r.value == input.nonWitnessUtxo.value.output[txin.previousOutput.vout]
    ensures input.witnessUtxo.None? && input.nonWitnessUtxo.None? ==> r.None?
  {
    if input.witnessUtxo.Some? then input.witnessUtxo
    else match input.nonWitnessUtxo
      case None => None
      case Some(prev) =>
        if c.computeTxid(prev) != txin.previousOutput.txid then None
        else if txin.previousOutput.vout < |prev.output| then Some(prev.output[txin.previousOutput.vout])
        else None
  }

  function Min(a: nat, b: nat): nat {
    if a < b then a else b
  }

  /** The spent outputs of PSBT inputs zipped with transaction inputs: as many as the shorter list. */
  function SpentOutputs(c: Crypto, inputs: seq<PsbtInput>, txins: seq<TxIn>): (r: seq<Option<TxOut>>)
    ensures |r| == Min(|inputs|, |txins|) && |r| <= |inputs| && |r| <= |txins|
    ensures forall j :: 0 <= j < |r| ==> r[j] == SpentOutput(c, inputs[j], txins[j])
  {
    seq(Min(|inputs|, |txins|), j requires 0 <= j < Min(|inputs|, |txins|) => SpentOutput(c, inputs[j], txins[j]))
  }

  predicate AllResolved(utxos: seq<Option<TxOut>>) {
    forall j :: 0 <= j < |utxos| ==> utxos[j].Some?
  }

  /** `filter_map(as_ref)` over outputs that are all present. */
  function Resolved(utxos: seq<Option<TxOut>>): (r: seq<TxOut>)
    requires AllResolved(utxos)
    ensures |r| == |utxos|
    ensures forall j :: 0 <= j < |r| ==> utxos[j] == Some(r[j])
    decreases |utxos|
  {
    if utxos == [] then [] else [utxos[0].value] + Resolved(utxos[1..])
  }

  /**
   * The prevouts the signature message commits to: with ANYONECANPAY only this input's
   * own, which must be known; otherwise every one of them, all of which must be known.
   */
  function SelectPrevouts(utxos: seq<Option<TxOut>>, index: nat, anyoneCanPay: bool): (r: Result<Prevouts, SignerError>)
    requires index < |utxos|
    ensures r.Err? ==> r.error == MissingWitnessUtxo
    ensures anyoneCanPay ==> (r.Ok? <==> utxos[index].Some?)
    ensures anyoneCanPay && r.Ok? ==> r.value == One(index, utxos[index].value)
    ensures !anyoneCanPay ==> (r.Ok? <==> AllResolved(utxos))
    ensures !anyoneCanPay && r.Ok? ==>
      r.value.All? && |r.value.outs| == |utxos| && forall j :: 0 <= j < |utxos| ==> utxos[j] == Some(r.value.outs[j])
  {
    if anyoneCanPay then
      if utxos[index].Some? then Ok(One(index, utxos[index].value)) else Err(MissingWitnessUtxo)
    else if AllResolved(utxos) then
      Ok(All(Resolved(utxos)))
    else
      Err(MissingWitnessUtxo)
  }

  /** The leaf-hash argument of the script-path message, with the fixed code-separator position. */
  function LeafArgument(extra: Option<LeafHash>): (r: Option<(LeafHash, nat)>)
    ensures extra.None? <==> r.None?
    ensures extra.Some? ==> r == Some((extra.value, NO_CODE_SEPARATOR))
  {
    match extra
    case Some(leafHash) => Some((leafHash, NO_CODE_SEPARATOR))
    case None => None
  }

  /** `compute_tap_sighash`: the digest to sign and the resolved sighash type. */
  function ComputeTapSighash(c: Crypto, tx: Transaction, inputs: seq<PsbtInput>, index: nat, extra: Option<LeafHash>)
    : (r: Result<(Msg, nat), SignerError>)
    ensures index >= |inputs| || index >= |tx.input| ==> r == Err(InputIndexOutOfRange)
    ensures r.Ok? ==> IsTaprootSighashType(r.value.1)
    ensures r.Ok? ==> index < |inputs| && r.value.1 == inputs[index].sighashType.GetOr(TAP_SIGHASH_DEFAULT)
  {
    if index >= |inputs| || index >= |tx.input| then Err(InputIndexOutOfRange)
    else match TaprootHashTy(inputs[index].sighashType.GetOr(TAP_SIGHASH_DEFAULT))
      case None => Err(InvalidSighash)
      case Some(sighashType) =>
        var utxos := SpentOutputs(c, inputs, tx.input);
        match SelectPrevouts(utxos, index, IsAnyoneCanPay(sighashType))
        case Err(e) => Err(e)
        case Ok(prevouts) =>
          match c.taprootSighash(tx, index, prevouts, LeafArgument(extra), sighashType)
          case Err(e) => Err(SighashTaproot(e))
          case Ok(digest) => Ok((digest, sighashType))
  }

  /**
   * A missing sighash type is `Default` (0x00); a recorded type outside the BIP341 set is
   * rejected with `InvalidSighash`, and nothing else yields that error.
   */
  lemma SighashTypeResolution(c: Crypto, tx: Transaction, inputs: seq<PsbtInput>, index: nat, extra: Option<LeafHash>)
    requires index < |inputs| && index < |tx.input|
    ensures var r := ComputeTapSighash(c, tx, inputs, index, extra);
      && (r == Err(InvalidSighash) <==> !IsTaprootSighashType(inputs[index].sighashType.GetOr(TAP_SIGHASH_DEFAULT)))
      && (inputs[index].sighashType.None? ==> r != Err(InvalidSighash) && (r.Ok? ==> r.value.1 == TAP_SIGHASH_DEFAULT))
  {
  }

  /**
   * With ANYONECANPAY only the signed input's own prevout matters: the digest is missing
   * exactly when that one output is unknown, and when it is known the message commits to it alone.
   */
  lemma AnyoneCanPayNeedsOwnPrevoutOnly(c: Crypto, tx: Transaction, inputs: seq<PsbtInput>, index: nat, extra: Option<LeafHash>)
    requires index < |inputs| && index < |tx.input|
    requires var t := inputs[index].sighashType.GetOr(TAP_SIGHASH_DEFAULT); IsTaprootSighashType(t) && IsAnyoneCanPay(t)
    ensures var r := ComputeTapSighash(c, tx, inputs, index, extra);
      var own := SpentOutput(c, inputs[index], tx.input[index]);
      var t := inputs[index].sighashType.GetOr(TAP_SIGHASH_DEFAULT);
      && (r == Err(MissingWitnessUtxo) <==> own.None?)
      && (own.Some? ==>
            match c.taprootSighash(tx, index, One(index, own.value), LeafArgument(extra), t)
            case Ok(digest) => r == Ok((digest, t))
            case Err(e) => r == Err(SighashTaproot(e)))
  {
    var utxos := SpentOutputs(c, inputs, tx.input);
    assert utxos[index] == SpentOutput(c, inputs[index], tx.input[index]);
  }

  /**
   * Without ANYONECANPAY every input's prevout must be known: one unknown output anywhere
   * (among the inputs the transaction and the PSBT both have) fails the digest with
   * `MissingWitnessUtxo`, and when all are known the message commits to all of them in order.
   */
  lemma NonAnyoneCanPayNeedsAllPrevouts(c: Crypto, tx: Transaction, inputs: seq<PsbtInput>, index: nat, extra: Option<LeafHash>)
    requires index < |inputs| && index < |tx.input|
    requires var t := inputs[index].sighashType.GetOr(TAP_SIGHASH_DEFAULT); IsTaprootSighashType(t) && !IsAnyoneCanPay(t)
    ensures var r := ComputeTapSighash(c, tx, inputs, index, extra);
      var n := Min(|inputs|, |tx.input|);
      && (r == Err(MissingWitnessUtxo) <==>
            exists j :: 0 <= j < n && SpentOutput(c, inputs[j], tx.input[j]).None?)
      && (r.Ok? ==> exists outs: seq<TxOut> ::
            && |outs| == n
            && (forall j :: 0 <= j < n ==> SpentOutput(c, inputs[j], tx.input[j]) == Some(outs[j]))
            && c.taprootSighash(tx, index, All(outs), LeafArgument(extra), r.value.1) == Ok(r.value.0))
  {
    var utxos := SpentOutputs(c, inputs, tx.input);
    var n := Min(|inputs|, |tx.input|);
    if AllResolved(utxos) {
      var outs := Resolved(utxos);
      assert forall j :: 0 <= j < n ==> SpentOutput(c, inputs[j], tx.input[j]) == Some(outs[j]);
    } else {
      var j :| 0 <= j < |utxos| && utxos[j].None?;
      assert SpentOutput(c, inputs[j], tx.input[j]).None?;
    }
  }

  /** The PSBT input fields the taproot digest depends on. */
  predicate SameSighashFields(a: PsbtInput, b: PsbtInput) {
    a.witnessUtxo == b.witnessUtxo && a.nonWitnessUtxo == b.nonWitnessUtxo && a.sighashType == b.sighashType
  }

  /**
   * The digest reads no signature field: inputs that agree on their UTXOs and sighash types
   * give the same result, so signatures added during a pass do not change later digests.
   */
  lemma TapSighashIgnoresSignatures(c: Crypto, tx: Transaction, a: seq<PsbtInput>, b: seq<PsbtInput>, index: nat, extra: Option<LeafHash>)
    requires |a| == |b|
    requires forall j :: 0 <= j < |a| ==> SameSighashFields(a[j], b[j])
    ensures ComputeTapSighash(c, tx, a, index, extra) == ComputeTapSighash(c, tx, b, index, extra)
  {
    assert SpentOutputs(c, a, tx.input) == SpentOutputs(c, b, tx.input);
  }
}
