/**
 * Key Matcher: `xpub_matches`, deciding whether a wallet descriptor key is the key a PSBT
 * input's BIP32 key origin (fingerprint, path) refers to.
 */
module KeyMatch {
  import opened Wrappers
  import opened BitcoinTypes

  /** Miniscript's wildcard marker on a descriptor key: none, unhardened or hardened. */
  datatype Wildcard = NoWildcard | UnhardenedWildcard | HardenedWildcard

  /**
   * A miniscript extended key: an optional origin recorded at import time, the xpub itself,
   * the path below it and the wildcard marker.
   */
  datatype ExtendedKey = ExtendedKey(
    origin: Option<(Fingerprint, DerivationPath)>,
    key: Xpub,
    path: DerivationPath,
    wildcard: Wildcard)

  /** The fingerprint the key claims: its origin's, or else the xpub's own. */
  function CompareFingerprint(c: Crypto, xpub: ExtendedKey): (f: Fingerprint)
    ensures xpub.origin.Some? ==> f == xpub.origin.value.0
    ensures xpub.origin.None? ==> f == c.xpubFingerprint(xpub.key)
  {
    match xpub.origin
    case Some((fingerprint, _)) => fingerprint
    case None => c.xpubFingerprint(xpub.key)
  }

  /** The full path the key claims from that fingerprint: origin path, then its own path. */
  function ComparePath(xpub: ExtendedKey): (p: DerivationPath)
    ensures |p| >= |xpub.path| && p[|p| - |xpub.path|..] == xpub.path
    ensures xpub.origin.Some? ==> xpub.origin.value.1 <= p && |p| == |xpub.origin.value.1| + |xpub.path|
    ensures xpub.origin.None? ==> p == xpub.path
  {
    match xpub.origin
    case Some((_, originPath)) => originPath + xpub.path
    case None => xpub.path
  }

  /** The recorded path with its last step dropped when the key has a wildcard and the path is not empty. */
  function PathExcludingWildcard(xpub: ExtendedKey, path: DerivationPath): (p: DerivationPath)
    ensures p <= path
    ensures |p| == if xpub.wildcard != NoWildcard && |path| > 0 then |path| - 1 else |path|
  {
    if xpub.wildcard != NoWildcard && |path| > 0 then path[..|path| - 1] else path
  }

  /** `xpub_matches`: on a match, the recorded path without its wildcard step. */
  function XpubMatches(c: Crypto, xpub: ExtendedKey, keysource: KeySource): (r: Option<DerivationPath>)
    ensures r.Some? <==>
      CompareFingerprint(c, xpub) == keysource.fingerprint
      && ComparePath(xpub) == PathExcludingWildcard(xpub, keysource.path)
    ensures r.Some? ==> r.value <= keysource.path && r.value == ComparePath(xpub)
  {
    var trimmed := PathExcludingWildcard(xpub, keysource.path);
    if CompareFingerprint(c, xpub) == keysource.fingerprint && ComparePath(xpub) == trimmed then
      Some(trimmed)
    else
      None
  }

  /** `xpub_matches(..).is_some()`, the only way the signer uses the matcher. */
  predicate Accepts(c: Crypto, xpub: ExtendedKey, keysource: KeySource) {
    XpubMatches(c, xpub, keysource).Some?
  }

  /**
   * The match rule for a key with origin (F, P0), own path P1 and a wildcard: the origin
   * (F', P0 ++ P1 ++ [i]) matches exactly when F' == F, whatever the final index i is,
   * and the matched path is P0 ++ P1.
   */
  lemma WildcardMatchesAnyFinalIndex(c: Crypto, xpub: ExtendedKey, f: Fingerprint, i: ChildNumber)
    requires xpub.origin.Some? && xpub.wildcard != NoWildcard
    ensures var p := xpub.origin.value.1 + xpub.path;
      XpubMatches(c, xpub, KeySource(f, p + [i])) ==
        (if f == xpub.origin.value.0 then Some(p) else None)
  {
    var p := xpub.origin.value.1 + xpub.path;
    assert (p + [i])[..|p + [i]| - 1] == p;
  }

  /**
   * Without a wildcard the recorded path must be P0 ++ P1 exactly: one extra step, or any
   * other path, is rejected.
   */
  lemma NoWildcardMatchesExactPath(c: Crypto, xpub: ExtendedKey, ks: KeySource)
    requires xpub.origin.Some? && xpub.wildcard == NoWildcard
    ensures Accepts(c, xpub, ks) <==>
      ks.fingerprint == xpub.origin.value.0 && ks.path == xpub.origin.value.1 + xpub.path
  {
  }

  /**
   * Without an origin the xpub's own fingerprint is compared, and the path is its own
   * path (plus the wildcard step).
   */
  lemma NoOriginUsesOwnFingerprint(c: Crypto, xpub: ExtendedKey, ks: KeySource)
    requires xpub.origin.None?
    ensures Accepts(c, xpub, ks) ==> ks.fingerprint == c.xpubFingerprint(xpub.key)
    ensures Accepts(c, xpub, ks) ==>
      ks.path == xpub.path || (xpub.wildcard != NoWildcard && |ks.path| == |xpub.path| + 1 && xpub.path <= ks.path)
  {
  }

  /** A wildcard key also matches an empty recorded path when its own full path is empty. */
  lemma WildcardEmptyPathComparedWhole(c: Crypto, xpub: ExtendedKey, f: Fingerprint)
    requires xpub.wildcard != NoWildcard
    ensures Accepts(c, xpub, KeySource(f, [])) <==> CompareFingerprint(c, xpub) == f && ComparePath(xpub) == []
  {
  }
}
