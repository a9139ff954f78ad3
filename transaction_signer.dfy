/**
 * The Aggregate Signer: a `TransactionSigner` holds an ordered list of
 * (descriptor key, root private key) pairs and signs an input by running the
 * derivation-aware signer for each pair in turn, stopping at the first error.
 */
module TransactionSigners {
  import opened Wrappers
  import opened BitcoinTypes
  import opened KeyMatch
  import opened InputSigner
  import opened PairSigner

  type KeyPair = (ExtendedKey, Xpriv)

  /**
   * The aggregate `sign_input`: the pairs applied in list order, each to the inputs the
   * previous one produced; the first error is returned with the inputs as they stood then.
   */
  function SignAll(c: Crypto, keys: seq<KeyPair>, tx: Transaction, inputs: seq<PsbtInput>, index: nat, ctx: SignerContext)
    : (res: (Outcome, seq<PsbtInput>))
    ensures ExtendsAt(inputs, res.1, index)
    decreases |keys|
  {
    if keys == [] then (Ok(()), inputs)
    else
      var first := SignPair(c, keys[0].0, keys[0].1, tx, inputs, index, ctx);
      if first.0.Err? then first
      else
        var rest := SignAll(c, keys[1..], tx, first.1, index, ctx);
        ExtendsAtTransitive(inputs, first.1, rest.1, index);
        rest
  }

  lemma ExtendsAtTransitive(a: seq<PsbtInput>, b: seq<PsbtInput>, d: seq<PsbtInput>, index: nat)
    requires ExtendsAt(a, b, index) && ExtendsAt(b, d, index)
    ensures ExtendsAt(a, d, index)
  {
    if index < |a| {
      ExtendsTransitive(a[index], b[index], d[index]);
    }
  }

  lemma ExtendsAllTransitive(a: seq<PsbtInput>, b: seq<PsbtInput>, d: seq<PsbtInput>)
    requires ExtendsAll(a, b) && ExtendsAll(b, d)
    ensures ExtendsAll(a, d)
  {
    forall j | 0 <= j < |a| ensures Extends(a[j], d[j]) {
      ExtendsTransitive(a[j], b[j], d[j]);
    }
  }

  class TransactionSigner {
    var privKeys: seq<KeyPair>

    /** `TransactionSigner::default()`: no keys. */
    constructor()
      ensures privKeys == []
    {
      privKeys := [];
    }

    /** `insert`: the pair goes to the end of the list. */
    method Insert(key: ExtendedKey, xpriv: Xpriv)
      modifies this
      ensures privKeys == old(privKeys) + [(key, xpriv)]
    {
      privKeys := privKeys + [(key, xpriv)];
    }

    /** `merge`: a new signer holding `a`'s pairs followed by `b`'s. */
    static method Merge(a: TransactionSigner, b: TransactionSigner) returns (r: TransactionSigner)
      ensures fresh(r)
      ensures r.privKeys == a.privKeys + b.privKeys
    {
      r := new TransactionSigner();
      r.privKeys := a.privKeys + b.privKeys;
    }

    /** `sign_input`: each pair in order, returning the first error. */
    method SignInput(c: Crypto, psbt: Psbt, index: nat, ctx: SignerContext) returns (r: Outcome)
      modifies psbt`inputs
      ensures (r, psbt.inputs) == SignAll(c, privKeys, psbt.unsignedTx, old(psbt.inputs), index, ctx)
    {
      for i := 0 to |privKeys|
        invariant SignAll(c, privKeys[i..], psbt.unsignedTx, psbt.inputs, index, ctx)
                  == SignAll(c, privKeys, psbt.unsignedTx, old(psbt.inputs), index, ctx)
      {
        assert privKeys[i..][0] == privKeys[i] && privKeys[i..][1..] == privKeys[i + 1..];
        var (key, xpriv) := privKeys[i];
        var outcome := SignWithExtendedKey(c, key, xpriv, psbt, index, ctx);
        if outcome.Err? {
          return outcome;
        }
      }
      return Ok(());
    }
  }

  // ---------------------------------------------------------------------------
  // What the aggregate promises

  /**
   * Signing with a merged signer is signing with the first signer's pairs and then, if
   * they all succeeded, with the second's.
   */
  lemma {:induction false} SignAllAppend(c: Crypto, a: seq<KeyPair>, b: seq<KeyPair>, tx: Transaction, inputs: seq<PsbtInput>, index: nat, ctx: SignerContext)
    ensures SignAll(c, a + b, tx, inputs, index, ctx)
      == (var first := SignAll(c, a, tx, inputs, index, ctx);
          if first.0.Err? then first else SignAll(c, b, tx, first.1, index, ctx))
    decreases |a|
  {
    if a == [] {
      assert a + b == b;
    } else {
      assert (a + b)[0] == a[0] && (a + b)[1..] == a[1..] + b;
      var step := SignPair(c, a[0].0, a[0].1, tx, inputs, index, ctx);
      if step.0.Ok? {
        SignAllAppend(c, a[1..], b, tx, step.1, index, ctx);
      }
    }
  }

  /** A finalized input is left exactly as it is by every pair, and the aggregate call succeeds. */
  lemma {:induction false} SignAllFinalizedIsNoop(c: Crypto, keys: seq<KeyPair>, tx: Transaction, inputs: seq<PsbtInput>, index: nat, ctx: SignerContext)
    requires index < |inputs| && IsFinalized(inputs[index])
    ensures SignAll(c, keys, tx, inputs, index, ctx) == (Ok(()), inputs)
    decreases |keys|
  {
    if keys != [] {
      SignPairFinalizedIsNoop(c, keys[0].0, keys[0].1, tx, inputs, index, ctx);
      SignAllFinalizedIsNoop(c, keys[1..], tx, inputs, index, ctx);
    }
  }

  /** Once the pairs up to `j` have failed, no later pair runs. */
  lemma ErrorStopsLaterKeys(c: Crypto, keys: seq<KeyPair>, j: nat, tx: Transaction, inputs: seq<PsbtInput>, index: nat, ctx: SignerContext)
    requires j <= |keys|
    requires SignAll(c, keys[..j], tx, inputs, index, ctx).0.Err?
    ensures SignAll(c, keys, tx, inputs, index, ctx) == SignAll(c, keys[..j], tx, inputs, index, ctx)
  {
    assert keys == keys[..j] + keys[j..];
    SignAllAppend(c, keys[..j], keys[j..], tx, inputs, index, ctx);
  }

  /**
   * A failed aggregate call is the failure of exactly one pair `j`: every pair before it
   * succeeded, and the result is pair `j`'s result on the inputs they produced.
   */
  lemma {:induction false} FailureComesFromOneKey(c: Crypto, keys: seq<KeyPair>, tx: Transaction, inputs: seq<PsbtInput>, index: nat, ctx: SignerContext)
    returns (j: nat)
    requires SignAll(c, keys, tx, inputs, index, ctx).0.Err?
    ensures j < |keys|
    ensures SignAll(c, keys[..j], tx, inputs, index, ctx).0.Ok?
    ensures SignPair(c, keys[j].0, keys[j].1, tx, SignAll(c, keys[..j], tx, inputs, index, ctx).1, index, ctx)
      == SignAll(c, keys, tx, inputs, index, ctx)
    decreases |keys|
  {
    assert keys != [];
    var init, last := keys[..|keys| - 1], keys[|keys| - 1];
    assert keys == init + [last];
    SignAllAppend(c, init, [last], tx, inputs, index, ctx);
    var before := SignAll(c, init, tx, inputs, index, ctx);
    if before.0.Err? {
      j := FailureComesFromOneKey(c, init, tx, inputs, index, ctx);
      assert keys[..j] == init[..j] && keys[j] == init[j];
    } else {
      j := |init|;
      assert keys[..j] == init;
      SignAllSingle(c, last, tx, before.1, index, ctx);
    }
  }

  /** A signer with a single pair does exactly what that pair does. */
  lemma SignAllSingle(c: Crypto, key: KeyPair, tx: Transaction, inputs: seq<PsbtInput>, index: nat, ctx: SignerContext)
    ensures SignAll(c, [key], tx, inputs, index, ctx) == SignPair(c, key.0, key.1, tx, inputs, index, ctx)
  {
    var first := SignPair(c, key.0, key.1, tx, inputs, index, ctx);
    assert [key][0] == key && [key][1..] == [];
    if first.0.Ok? {
      SuccessIsUnit(first.0);
    }
  }

  /** There is only one successful outcome. */
  lemma SuccessIsUnit(o: Outcome)
    requires o.Ok?
    ensures o == Ok(())
  {
    var u: () := o.value;
    assert u == ();
  }

  /** An index past the PSBT's inputs fails at the first pair; a signer with no pairs succeeds on any index. */
  lemma OutOfRangeIndex(c: Crypto, keys: seq<KeyPair>, tx: Transaction, inputs: seq<PsbtInput>, index: nat, ctx: SignerContext)
    requires |inputs| <= index
    ensures SignAll(c, keys, tx, inputs, index, ctx)
      == (if keys == [] then (Ok(()), inputs) else (Err(InputIndexOutOfRange), inputs))
  {
  }

  /**
   * A successful aggregate call leaves nothing to do: run again on its own output, or on
   * any PSBT that only gained signatures since, it succeeds and changes nothing.
   */
  lemma {:induction false} SignAllStable(c: Crypto, keys: seq<KeyPair>, tx: Transaction, inputs: seq<PsbtInput>, index: nat, ctx: SignerContext, later: seq<PsbtInput>)
    requires SignAll(c, keys, tx, inputs, index, ctx).0.Ok?
    requires ExtendsAll(SignAll(c, keys, tx, inputs, index, ctx).1, later)
    ensures SignAll(c, keys, tx, later, index, ctx) == (Ok(()), later)
    decreases |keys|
  {
    if keys != [] {
      var first := SignPair(c, keys[0].0, keys[0].1, tx, inputs, index, ctx);
      var final := SignAll(c, keys, tx, inputs, index, ctx).1;
      assert SignAll(c, keys, tx, inputs, index, ctx) == SignAll(c, keys[1..], tx, first.1, index, ctx);
      ExtendsAtIsExtendsAll(first.1, final, index);
      ExtendsAllTransitive(first.1, final, later);
      SignPairStable(c, keys[0].0, keys[0].1, tx, inputs, index, ctx, later);
      SignAllStable(c, keys[1..], tx, first.1, index, ctx, later);
    }
  }

  /** Signing twice with the same signer is the same as signing once. */
  lemma SignAllIdempotent(c: Crypto, keys: seq<KeyPair>, tx: Transaction, inputs: seq<PsbtInput>, index: nat, ctx: SignerContext)
    requires SignAll(c, keys, tx, inputs, index, ctx).0.Ok?
    ensures var once := SignAll(c, keys, tx, inputs, index, ctx).1;
      SignAll(c, keys, tx, once, index, ctx) == (Ok(()), once)
  {
    var once := SignAll(c, keys, tx, inputs, index, ctx).1;
    assert ExtendsAll(once, once);
    SignAllStable(c, keys, tx, inputs, index, ctx, once);
  }
}
