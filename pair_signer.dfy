/**
 * Derivation-Aware Signer: `InputSigner for (ExtendedKey, Xpriv)`.  It finds the first key
 * origin on the input that the descriptor key matches, derives the child key at that
 * origin's full recorded path, refuses a derived key that is not the recorded one, and
 * hands the child key to the raw signer.
 */
module PairSigner {
  import opened Wrappers
  import opened BitcoinTypes
  import opened KeyMatch
  import opened InputSigner

  /**
   * The (public key, key origin) pairs in the order the source scans them: the
   * `bip32_derivation` entries, then the `tap_key_origins` entries with each x-only key
   * lifted to its even-y point.
   */
  function Candidates(input: PsbtInput): (r: seq<(Point, KeySource)>)
    ensures |r| == |input.bip32Derivation| + |input.tapKeyOrigins|
    ensures r[..|input.bip32Derivation|] == input.bip32Derivation
    ensures forall j :: 0 <= j < |input.tapKeyOrigins| ==>
      r[|input.bip32Derivation| + j] == (LiftEven(input.tapKeyOrigins[j].0), input.tapKeyOrigins[j].1.1)
  {
    input.bip32Derivation
      + seq(|input.tapKeyOrigins|, j requires 0 <= j < |input.tapKeyOrigins| =>
              (LiftEven(input.tapKeyOrigins[j].0), input.tapKeyOrigins[j].1.1))
  }

  /** The position the `find_map` stops at: the first accepted candidate at or after `from`, or the length when there is none. */
  function FirstMatchIndex(c: Crypto, xpub: ExtendedKey, candidates: seq<(Point, KeySource)>, from: nat): (r: nat)
    requires from <= |candidates|
    ensures from <= r <= |candidates|
    ensures forall i :: from <= i < r ==> !Accepts(c, xpub, candidates[i].1)
    ensures r < |candidates| ==> Accepts(c, xpub, candidates[r].1)
    decreases |candidates| - from
  {
    if from == |candidates| then from
    else if Accepts(c, xpub, candidates[from].1) then from
    else
      var r := FirstMatchIndex(c, xpub, candidates, from + 1);
      assert forall i :: from <= i < r ==> !Accepts(c, xpub, candidates[i].1) by {
        forall i | from <= i < r ensures !Accepts(c, xpub, candidates[i].1) {
          if i == from {
            // rejected by the guard above; every later candidate by the recursive call
          }
        }
      }
      r
  }

  /** The `find_map`: the first candidate whose origin the key matches, with that origin's full path. */
  function FirstMatch(c: Crypto, xpub: ExtendedKey, candidates: seq<(Point, KeySource)>): (r: Option<(Point, DerivationPath)>)
    ensures r.None? <==> forall j :: 0 <= j < |candidates| ==> !Accepts(c, xpub, candidates[j].1)
  {
    var j := FirstMatchIndex(c, xpub, candidates, 0);
    if j < |candidates| then Some((candidates[j].0, candidates[j].1.path)) else None
  }

  /** Candidate `j` is accepted and no earlier one is. */
  predicate IsFirstMatch(c: Crypto, xpub: ExtendedKey, candidates: seq<(Point, KeySource)>, j: nat) {
    && j < |candidates|
    && Accepts(c, xpub, candidates[j].1)
    && forall i :: 0 <= i < j ==> !Accepts(c, xpub, candidates[i].1)
  }

  /** `(ExtendedKey, Xpriv)::sign_input`: the result and the PSBT inputs afterwards. */
  function SignPair(c: Crypto, xpub: ExtendedKey, xpriv: Xpriv, tx: Transaction, inputs: seq<PsbtInput>, index: nat, ctx: SignerContext)
    : (res: (Outcome, seq<PsbtInput>))
    ensures ExtendsAt(inputs, res.1, index)
  {
    if index >= |inputs| then (Err(InputIndexOutOfRange), inputs)
    else if IsFinalized(inputs[index]) then (Ok(()), inputs)
    else match FirstMatch(c, xpub, Candidates(inputs[index]))
      case None => (Ok(()), inputs)
      case Some((publicKey, fullPath)) =>
        var derived := c.derivePriv(xpriv, fullPath);
        if publicKey != c.secretPub(derived) then (Err(InvalidKey), inputs)
        else SignRaw(c, PrivateKey(true, derived), tx, inputs, index, ctx)
  }

  /** `(ExtendedKey, Xpriv)::sign_input`, mutating `psbt.inputs[index]` in place. */
  method SignWithExtendedKey(c: Crypto, xpub: ExtendedKey, xpriv: Xpriv, psbt: Psbt, index: nat, ctx: SignerContext) returns (r: Outcome)
    modifies psbt`inputs
    ensures (r, psbt.inputs) == SignPair(c, xpub, xpriv, psbt.unsignedTx, old(psbt.inputs), index, ctx)
  {
    if index >= |psbt.inputs| {
      return Err(InputIndexOutOfRange);
    }
    if psbt.inputs[index].finalScriptSig.Some? || psbt.inputs[index].finalScriptWitness.Some? {
      return Ok(());
    }
    var found := FirstMatch(c, xpub, Candidates(psbt.inputs[index]));
    if found.None? {
      return Ok(());
    }
    var (publicKey, fullPath) := found.value;
    var derived := c.derivePriv(xpriv, fullPath);
    var computed := c.secretPub(derived);
    if publicKey != computed {
      return Err(InvalidKey);
    }
    // HD wallets imply compressed keys.
    var privKey := PrivateKey(true, derived);
    r := SignWithPrivateKey(c, privKey, psbt, index, ctx);
  }

  // ---------------------------------------------------------------------------
  // What the pair signer promises

  /** A finalized input is left exactly as it is, and the call succeeds. */
  lemma SignPairFinalizedIsNoop(c: Crypto, xpub: ExtendedKey, xpriv: Xpriv, tx: Transaction, inputs: seq<PsbtInput>, index: nat, ctx: SignerContext)
    requires index < |inputs| && IsFinalized(inputs[index])
    ensures SignPair(c, xpub, xpriv, tx, inputs, index, ctx) == (Ok(()), inputs)
  {
  }

  /** A key that matches none of the input's key origins leaves the PSBT alone and succeeds. */
  lemma NoMatchIsNoop(c: Crypto, xpub: ExtendedKey, xpriv: Xpriv, tx: Transaction, inputs: seq<PsbtInput>, index: nat, ctx: SignerContext)
    requires index < |inputs|
    requires forall j :: 0 <= j < |Candidates(inputs[index])| ==> !Accepts(c, xpub, Candidates(inputs[index])[j].1)
    ensures SignPair(c, xpub, xpriv, tx, inputs, index, ctx) == (Ok(()), inputs)
  {
  }

  /**
   * Tamper rejection: when the first matching origin records public key Q at path D but the
   * root derives a different key at D, the call fails with `InvalidKey` and nothing is signed.
   */
  lemma SubstitutedKeyRejected(c: Crypto, xpub: ExtendedKey, xpriv: Xpriv, tx: Transaction, inputs: seq<PsbtInput>, index: nat, ctx: SignerContext, j: nat)
    requires index < |inputs| && !IsFinalized(inputs[index])
    requires IsFirstMatch(c, xpub, Candidates(inputs[index]), j)
    requires var cand := Candidates(inputs[index])[j]; c.secretPub(c.derivePriv(xpriv, cand.1.path)) != cand.0
    ensures SignPair(c, xpub, xpriv, tx, inputs, index, ctx) == (Err(InvalidKey), inputs)
  {
    FirstMatchIsUnique(c, xpub, Candidates(inputs[index]), j);
  }

  /**
   * The key signed with is the child derived at the first matching origin's FULL recorded
   * path, compressed, even when the key's wildcard made the matcher ignore the path's last step.
   */
  lemma DerivesAtFullRecordedPath(c: Crypto, xpub: ExtendedKey, xpriv: Xpriv, tx: Transaction, inputs: seq<PsbtInput>, index: nat, ctx: SignerContext, j: nat)
    requires index < |inputs| && !IsFinalized(inputs[index])
    requires IsFirstMatch(c, xpub, Candidates(inputs[index]), j)
    requires var cand := Candidates(inputs[index])[j]; c.secretPub(c.derivePriv(xpriv, cand.1.path)) == cand.0
    ensures var cand := Candidates(inputs[index])[j];
      && SignPair(c, xpub, xpriv, tx, inputs, index, ctx)
           == SignRaw(c, PrivateKey(true, c.derivePriv(xpriv, cand.1.path)), tx, inputs, index, ctx)
      && (xpub.wildcard != NoWildcard && cand.1.path != [] ==>
            |cand.1.path| == |XpubMatches(c, xpub, cand.1).value| + 1)
  {
    FirstMatchIsUnique(c, xpub, Candidates(inputs[index]), j);
  }

  /** The candidate `find_map` returns is the first accepted one, whichever that is. */
  lemma FirstMatchIsUnique(c: Crypto, xpub: ExtendedKey, candidates: seq<(Point, KeySource)>, j: nat)
    requires IsFirstMatch(c, xpub, candidates, j)
    ensures FirstMatch(c, xpub, candidates) == Some((candidates[j].0, candidates[j].1.path))
  {
    var k := FirstMatchIndex(c, xpub, candidates, 0);
    assert !(k < j) && !(j < k);
  }

  /**
   * Unlike the raw signer, the pair signer checks the index against the PSBT's inputs only:
   * for an index past the transaction's inputs but within the PSBT's, a key that matches
   * nothing returns success, while the raw signer would report `InputIndexOutOfRange`.
   */
  lemma ChecksOnlyPsbtInputCount(c: Crypto, xpub: ExtendedKey, xpriv: Xpriv, tx: Transaction, inputs: seq<PsbtInput>, index: nat, ctx: SignerContext, key: PrivateKey)
    requires |tx.input| <= index < |inputs| && !IsFinalized(inputs[index])
    requires forall j :: 0 <= j < |Candidates(inputs[index])| ==> !Accepts(c, xpub, Candidates(inputs[index])[j].1)
    ensures SignPair(c, xpub, xpriv, tx, inputs, index, ctx) == (Ok(()), inputs)
    ensures SignRaw(c, key, tx, inputs, index, ctx) == (Err(InputIndexOutOfRange), inputs)
  {
  }

  /**
   * Taproot origins are compared as even-y points: if the first matching origin is a
   * `tap_key_origins` entry for x-only key x, and the root derives the odd-y point with
   * that same x at its path, the call fails with `InvalidKey`.
   */
  lemma TapOriginLiftedEven(c: Crypto, xpub: ExtendedKey, xpriv: Xpriv, tx: Transaction, inputs: seq<PsbtInput>, index: nat, ctx: SignerContext, t: nat)
    requires index < |inputs| && !IsFinalized(inputs[index])
    requires t < |inputs[index].tapKeyOrigins|
    requires IsFirstMatch(c, xpub, Candidates(inputs[index]), |inputs[index].bip32Derivation| + t)
    requires var origin := inputs[index].tapKeyOrigins[t];
      c.secretPub(c.derivePriv(xpriv, origin.1.1.path)) == Point(origin.0, true)
    ensures SignPair(c, xpub, xpriv, tx, inputs, index, ctx) == (Err(InvalidKey), inputs)
  {
    var cands := Candidates(inputs[index]);
    var j := |inputs[index].bip32Derivation| + t;
    assert cands[j] == (LiftEven(inputs[index].tapKeyOrigins[t].0), inputs[index].tapKeyOrigins[t].1.1);
    SubstitutedKeyRejected(c, xpub, xpriv, tx, inputs, index, ctx, j);
  }

  /** A successful call has nothing left to do on the PSBT it produced or on any later one that only gained signatures. */
  lemma SignPairStable(c: Crypto, xpub: ExtendedKey, xpriv: Xpriv, tx: Transaction, inputs: seq<PsbtInput>, index: nat, ctx: SignerContext, later: seq<PsbtInput>)
    requires SignPair(c, xpub, xpriv, tx, inputs, index, ctx).0.Ok?
    requires ExtendsAll(SignPair(c, xpub, xpriv, tx, inputs, index, ctx).1, later)
    ensures SignPair(c, xpub, xpriv, tx, later, index, ctx) == (Ok(()), later)
  {
    var res := SignPair(c, xpub, xpriv, tx, inputs, index, ctx);
    if index < |inputs| && !IsFinalized(inputs[index]) {
      assert Extends(inputs[index], res.1[index]) && Extends(res.1[index], later[index]);
      assert SameExceptSignatures(inputs[index], later[index]);
      assert Candidates(later[index]) == Candidates(inputs[index]);
      match FirstMatch(c, xpub, Candidates(inputs[index])) {
        case None =>
        case Some((publicKey, fullPath)) =>
          SignRawStable(c, PrivateKey(true, c.derivePriv(xpriv, fullPath)), tx, inputs, index, ctx, later);
      }
    }
  }
}
