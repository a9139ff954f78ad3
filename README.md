# Portal hardware wallet: signing, NFC buffer, emulator link and flash pages in Dafny

This project models four pieces of the Portal hardware wallet firmware and its shared
model library, and proves properties about them.

- **PSBT input signing** (`firmware/src/bitcoin_utils.rs`):
  - `xpub_matches`, the BIP32 key-origin matcher with its wildcard rule;
  - the raw signer `InputSigner for PrivateKey`, which writes ECDSA `partial_sigs` (BIP174) or the taproot `tap_key_sig` / `tap_script_sigs` (BIP371) of one input in place;
  - `sign_psbt_ecdsa` and `sign_psbt_schnorr`;
  - the prevout and sighash-type selection of `compute_tap_sighash` (BIP341 common signature message; the code-separator position of BIP342);
  - the derivation-aware signer for `(ExtendedKey, Xpriv)`;
  - the ordered `TransactionSigner` aggregate.

  Every elliptic-curve, hashing and BIP32 primitive is a field of the `Crypto` value passed to each operation, so the proofs hold for any implementation of them. Each signer is a method that mutates `psbt.inputs` (the `Psbt` class). It is proved equal to a specification function (`SignRaw`, `SignPair`, `SignAll`). The lemmas then state what the source promises about that function: the bounds check, the finalized no-op, sign-once, the key-spend and script-spend rules, tamper rejection, first-error aggregation and idempotence.
- **NFC write buffer** (`model/src/write_buffer.rs`): a class over a two-dimensional byte array with a cursor.
  - `Append` is the source's nested loop with its invariants. It is proved equal to `AppendSpec`, which stores byte after byte at the cursor and jumps over each frame's prefix and address byte.
  - `GetData` is the frame filter.
  - The lemmas state where each byte lands, that reserved bytes are never written, that untouched cells keep their contents, and which frames are sent.
- **Emulator wire format** (`model/src/emulator.rs`): `CardMessage::write_to` and `EmulatorMessage::encode` as functions returning bytes. Each has a reader for the other end of the link. The proofs cover the exact byte layout, the round trip in both directions, and injectivity.
- **Flash pages and banks** (`firmware/src/hw/mod.rs`):
  - the length-prefixed page image of `write_flash`;
  - its decoding in `read_flash`;
  - the erase-page choice between the two banks;
  - the `FlashBank` / `BankToFlash` page mappings;
  - a `Flash` class over an abstract page store.

Module layout: `Wrappers` (Option, Result), `Bytes` (u8, u16, big-endian u16), `BitcoinTypes` (PSBT data and the `Crypto` collaborators), `KeyMatch`, `TapSighash`, `InputSigner`, `PairSigner`, `TransactionSigners`, `WriteBuffers`, `Emulator`, `FlashStore`.

## Model

| member | source | states |
|---|---|---|
| KeyMatch.CompareFingerprint | firmware/src/bitcoin_utils.rs:24-32 | The fingerprint compared is the origin's when the key has an origin, otherwise the xpub's own fingerprint |
| KeyMatch.ComparePath | firmware/src/bitcoin_utils.rs:24-32 | The path compared is the origin path followed by the key's own path, or the key's own path alone without an origin |
| KeyMatch.PathExcludingWildcard | firmware/src/bitcoin_utils.rs:34-41 | The trimmed path is a prefix of the recorded path, one step shorter exactly when the key has a wildcard and the path is not empty |
| KeyMatch.XpubMatches | firmware/src/bitcoin_utils.rs:18-52 | A match exists iff the fingerprints are equal and the comparison path equals the trimmed recorded path; the returned path is that prefix of the recorded path |
| KeyMatch.WildcardMatchesAnyFinalIndex | firmware/src/bitcoin_utils.rs:34-51 | A wildcard key with origin (F, P0) and path P1 matches (F', P0 ++ P1 ++ [i]) for every final index i exactly when F' = F, returning P0 ++ P1 |
| KeyMatch.NoWildcardMatchesExactPath | firmware/src/bitcoin_utils.rs:24-51 | Without a wildcard an origin is accepted iff its fingerprint is the origin's and its path is exactly origin path ++ key path |
| KeyMatch.NoOriginUsesOwnFingerprint | firmware/src/bitcoin_utils.rs:28-51 | Without an origin an accepted key source carries the xpub's own fingerprint and the key's path, plus one step when the key has a wildcard |
| KeyMatch.WildcardEmptyPathComparedWhole | firmware/src/bitcoin_utils.rs:34-51 | An empty recorded path is not trimmed: a wildcard key accepts it iff the fingerprints agree and its whole comparison path is empty |
| BitcoinTypes.LiftEven | firmware/src/bitcoin_utils.rs:234 | Lifting an x-only key gives the even-y point with that x coordinate |
| TapSighash.TaprootHashTy | firmware/src/bitcoin_utils.rs:342-346 | A sighash type is accepted, unchanged, iff it is one of the BIP341 taproot types 0x00-0x03 or 0x81-0x83 |
| TapSighash.SpentOutput | firmware/src/bitcoin_utils.rs:347-360 | The spent output is the witness UTXO when present; otherwise it is the referenced output of a non-witness UTXO whose txid is the one the transaction input spends, and nothing else |
| TapSighash.SpentOutputs | firmware/src/bitcoin_utils.rs:347-360 | One spent output per input pair, for as many pairs as the shorter of the PSBT and transaction input lists |
| TapSighash.Resolved | firmware/src/bitcoin_utils.rs:372-374 | Unwrapping all-present outputs keeps their number and order |
| TapSighash.SelectPrevouts | firmware/src/bitcoin_utils.rs:364-377 | With ANYONECANPAY the prevouts are this input's own output, available iff it is known; otherwise all outputs in order, available iff every one is known; the only error is MissingWitnessUtxo |
| TapSighash.LeafArgument | firmware/src/bitcoin_utils.rs:380 | A leaf hash is passed with code-separator position 0xFFFFFFFF, and no leaf means a key-spend message |
| TapSighash.ComputeTapSighash | firmware/src/bitcoin_utils.rs:331-388 | An index past either input list is InputIndexOutOfRange; a success returns a valid taproot sighash type equal to the input's recorded type or Default |
| TapSighash.SighashTypeResolution | firmware/src/bitcoin_utils.rs:342-346 | InvalidSighash is returned iff the recorded type (Default when absent) is not a taproot type; an absent type never gives it and resolves to Default |
| TapSighash.AnyoneCanPayNeedsOwnPrevoutOnly | firmware/src/bitcoin_utils.rs:364-377 | With ANYONECANPAY the digest fails with MissingWitnessUtxo iff this input's own prevout is unknown, and otherwise commits to that prevout alone |
| TapSighash.NonAnyoneCanPayNeedsAllPrevouts | firmware/src/bitcoin_utils.rs:365-377 | Without ANYONECANPAY the digest fails with MissingWitnessUtxo iff some input's prevout is unknown, and a success commits to all prevouts in input order |
| TapSighash.TapSighashIgnoresSignatures | firmware/src/bitcoin_utils.rs:331-388 | The digest depends only on UTXOs and sighash types, so signatures added in between do not change it |
| InputSigner.SignPsbtEcdsa | firmware/src/bitcoin_utils.rs:269-291 | Only input `index` changes: its partial_sigs gains the low-R ECDSA signature under the given public key |
| InputSigner.SignPsbtSchnorr | firmware/src/bitcoin_utils.rs:294-328 | Only input `index` changes: without a leaf the tap_key_sig is set with the key tweaked by the merkle root; with a leaf the untweaked signature is stored under (x-only key, leaf) |
| InputSigner.KeySpend | firmware/src/bitcoin_utils.rs:104-120 | The key-spend step only adds signatures to input `index`, never touches script signatures, and changes nothing when it fails |
| InputSigner.TapLeavesOf | firmware/src/bitcoin_utils.rs:122-133 | The leaves found are those of an entry for this x-only key in tap_key_origins, and none are found iff no entry has that key |
| InputSigner.UnsignedLeaves | firmware/src/bitcoin_utils.rs:125-133 | A leaf is kept iff it is listed and has no script signature under this key |
| InputSigner.NothingLeftToSign | firmware/src/bitcoin_utils.rs:125-133 | Once every listed leaf is signed under this key the filter leaves nothing to sign |
| InputSigner.SignLeaves | firmware/src/bitcoin_utils.rs:134-146 | The leaf loop changes only input `index`'s script signatures; no entry is lost; every new or changed entry is under this key and a listed leaf and holds that leaf's digest signature; on success every leaf is signed |
| InputSigner.SignTaproot | firmware/src/bitcoin_utils.rs:101-148 | The taproot branch only adds signatures to input `index` and leaves its partial_sigs alone |
| InputSigner.SignEcdsa | firmware/src/bitcoin_utils.rs:149-168 | The ECDSA branch only adds signatures to input `index` |
| InputSigner.SignRaw | firmware/src/bitcoin_utils.rs:80-173 | A call never changes another input and never removes or replaces a signature |
| InputSigner.SignRawRejectsOutOfRange | firmware/src/bitcoin_utils.rs:88-90 | An index past the PSBT's or the transaction's inputs gives InputIndexOutOfRange and no change |
| InputSigner.SignRawFinalizedIsNoop | firmware/src/bitcoin_utils.rs:92-96 | An input with a final scriptSig or witness is left as it is and the call succeeds |
| InputSigner.EcdsaSignsOnce | firmware/src/bitcoin_utils.rs:149-168 | Legacy and segwit v0: an existing signature for the key means no change; otherwise exactly one partial_sigs entry keyed by the signer's public key is added, or a digest error changes nothing |
| InputSigner.KeySpendRule | firmware/src/bitcoin_utils.rs:104-120 | tap_key_sig changes only for the internal key, with is_internal_key set and no key signature yet; it then holds the tweaked key's signature of the key-spend digest; partial_sigs never change |
| InputSigner.ScriptSpendRule | firmware/src/bitcoin_utils.rs:122-147 | Existing script signatures are kept; each new one is under this key and a leaf listed for it and signs that leaf's digest; on success every listed leaf is signed |
| InputSigner.SignTaprootStable | firmware/src/bitcoin_utils.rs:101-148 | After a successful taproot pass, the same pass on that PSBT or on one that only gained signatures changes nothing |
| InputSigner.SignRawStable | firmware/src/bitcoin_utils.rs:80-173 | After a successful call, the same call on its output or on any later PSBT that only gained signatures succeeds and changes nothing |
| InputSigner.SignRawIdempotent | firmware/src/bitcoin_utils.rs:80-173 | Signing twice with the same key is the same as signing once |
| InputSigner.SignWithPrivateKey | firmware/src/bitcoin_utils.rs:80-173 | The in-place signer returns SignRaw's result and leaves psbt.inputs as SignRaw computes them |
| InputSigner.SignEcdsaInput | firmware/src/bitcoin_utils.rs:149-168 | The in-place ECDSA branch returns and writes exactly what SignEcdsa specifies |
| InputSigner.SignTaprootInput | firmware/src/bitcoin_utils.rs:101-148 | The in-place taproot branch returns and writes exactly what SignTaproot specifies |
| InputSigner.SignKeySpend | firmware/src/bitcoin_utils.rs:104-120 | The in-place key-spend step returns and writes exactly what KeySpend specifies |
| InputSigner.SignScriptSpends | firmware/src/bitcoin_utils.rs:134-146 | The leaf loop, with early return on a digest error, returns and writes exactly what SignLeaves specifies |
| PairSigner.Candidates | firmware/src/bitcoin_utils.rs:231-249 | The scan order is the bip32_derivation entries, then the tap_key_origins entries with each key lifted to even y |
| PairSigner.FirstMatchIndex | firmware/src/bitcoin_utils.rs:231-249 | The scan stops at an accepted candidate with none accepted before it, or at the end when none is accepted |
| PairSigner.FirstMatch | firmware/src/bitcoin_utils.rs:231-249 | There is no match iff the key accepts none of the candidate origins |
| PairSigner.FirstMatchIsUnique | firmware/src/bitcoin_utils.rs:231-249 | The match used is the first accepted candidate, with its recorded key and full path |
| PairSigner.SignPair | firmware/src/bitcoin_utils.rs:211-267 | The pair signer never changes another input and never removes or replaces a signature |
| PairSigner.SignWithExtendedKey | firmware/src/bitcoin_utils.rs:211-267 | The in-place pair signer returns and writes exactly what SignPair specifies |
| PairSigner.SignPairFinalizedIsNoop | firmware/src/bitcoin_utils.rs:223-227 | A finalized input is left as it is and the pair signer succeeds |
| PairSigner.NoMatchIsNoop | firmware/src/bitcoin_utils.rs:248 | A key that matches no origin succeeds and changes nothing |
| PairSigner.SubstitutedKeyRejected | firmware/src/bitcoin_utils.rs:251-255 | When the key derived at the matched path is not the recorded key, the call fails with InvalidKey and changes nothing |
| PairSigner.DerivesAtFullRecordedPath | firmware/src/bitcoin_utils.rs:251-264 | When the derived key is the recorded one, the call is the raw signer with the compressed key derived at the full recorded path, one step longer than the matched path under a wildcard |
| PairSigner.ChecksOnlyPsbtInputCount | firmware/src/bitcoin_utils.rs:219-221 | For an index within the PSBT's inputs but past the transaction's, a non-matching pair signer succeeds while the raw signer reports InputIndexOutOfRange |
| PairSigner.TapOriginLiftedEven | firmware/src/bitcoin_utils.rs:234 | A taproot origin is compared as the even-y point, so a derived odd-y point with the same x is rejected with InvalidKey |
| PairSigner.SignPairStable | firmware/src/bitcoin_utils.rs:211-267 | After a successful call, the same call on any PSBT that only gained signatures since succeeds and changes nothing |
| TransactionSigners.SignAll | firmware/src/bitcoin_utils.rs:196-208 | Applying the pairs in order never changes another input and never removes or replaces a signature |
| TransactionSigners.TransactionSigner.constructor | firmware/src/bitcoin_utils.rs:174-178 | The default signer holds no pairs |
| TransactionSigners.TransactionSigner.Insert | firmware/src/bitcoin_utils.rs:181-183 | insert appends the pair at the end of the list |
| TransactionSigners.TransactionSigner.Merge | firmware/src/bitcoin_utils.rs:185-192 | merge yields a new signer with a's pairs followed by b's |
| TransactionSigners.TransactionSigner.SignInput | firmware/src/bitcoin_utils.rs:196-208 | The loop with early return gives exactly SignAll's result and inputs |
| TransactionSigners.SignAllAppend | firmware/src/bitcoin_utils.rs:185-208 | A merged signer signs with the first signer's pairs and, only if all succeeded, then with the second's |
| TransactionSigners.SignAllFinalizedIsNoop | firmware/src/bitcoin_utils.rs:196-208 | A finalized input is left as it is by every pair, and the aggregate call succeeds |
| TransactionSigners.ErrorStopsLaterKeys | firmware/src/bitcoin_utils.rs:196-208 | Once a prefix of the pairs has failed, the pairs after it have no effect |
| TransactionSigners.FailureComesFromOneKey | firmware/src/bitcoin_utils.rs:196-208 | A failure is one pair's failure: every earlier pair succeeded and the result is that pair's result on the inputs they produced |
| TransactionSigners.OutOfRangeIndex | firmware/src/bitcoin_utils.rs:196-221 | An index past the PSBT's inputs gives InputIndexOutOfRange with no change, unless the signer has no pairs |
| TransactionSigners.SignAllStable | firmware/src/bitcoin_utils.rs:196-208 | After a successful aggregate call, the same call on any PSBT that only gained signatures since succeeds and changes nothing |
| TransactionSigners.SignAllIdempotent | firmware/src/bitcoin_utils.rs:196-208 | Signing twice with the same signer is the same as signing once |
| WriteBuffers.PutCell | model/src/write_buffer.rs:28 | Storing at cursor position c changes the byte at c and no other position |
| WriteBuffers.AppendSpec | model/src/write_buffer.rs:22-37 | The frames keep their shape and the cursor only moves forward, staying past the reserved bytes of its frame |
| WriteBuffers.SelectFrom | model/src/write_buffer.rs:43-50 | The frames sent are in increasing order, each once, and a frame is sent iff it is below the take count or is the last frame |
| WriteBuffers.LandingAvoidsPrefix | model/src/write_buffer.rs:32-35 | No byte ever lands on a frame's prefix or address byte |
| WriteBuffers.LandingIncreasing | model/src/write_buffer.rs:27-30 | Bytes land in the order they are written, each at a distinct, larger position |
| WriteBuffers.AppendKeepsOtherCells | model/src/write_buffer.rs:25-30 | A position no written byte lands on keeps its old contents |
| WriteBuffers.AppendPlacesEachByte | model/src/write_buffer.rs:27-30 | The k-th byte is stored at its landing position whenever that position is inside the frames |
| WriteBuffers.AppendCursorWhenNotFull | model/src/write_buffer.rs:25-35 | Bytes are dropped only once the frames are full: a cursor left inside them is past every byte of the fragment |
| WriteBuffers.AppendNeverWritesPrefix | model/src/write_buffer.rs:32-35 | The first PREFIX_LEN + 1 bytes of every frame are never written |
| WriteBuffers.FreshBufferSendsFirstAndLast | model/src/write_buffer.rs:43-64 | From a freshly initialised cursor exactly the first frame and the terminating last frame are sent |
| WriteBuffers.FullBufferSendsEveryFrame | model/src/write_buffer.rs:43-50 | Once the cursor has passed the last frame, every frame is sent |
| WriteBuffers.WriteBuffer.InitFields | model/src/write_buffer.rs:58-66 | init_fields keeps the given frames, zeroes the prefix and puts the cursor at 1 + PREFIX_LEN |
| WriteBuffers.WriteBuffer.Append | model/src/write_buffer.rs:22-37 | The nested loop leaves frames and cursor exactly as AppendSpec says |
| WriteBuffers.WriteBuffer.FillFrame | model/src/write_buffer.rs:26-35 | One outer pass leaves the rest of the append unchanged in meaning, and moves the cursor past frame i whenever data is left |
| WriteBuffers.WriteBuffer.FillWithin | model/src/write_buffer.rs:26-30 | The inner loop stores at most `left` bytes, stopping early only when the data runs out; the cursor advances by the bytes stored, and storing them is the first part of the append |
| WriteBuffers.WriteBuffer.SkipReserved | model/src/write_buffer.rs:32-35 | At a frame boundary the cursor jumps over PREFIX_LEN + 1 bytes, and otherwise stays |
| WriteBuffers.WriteBuffer.StoreNext | model/src/write_buffer.rs:27-30 | One inner pass stores the next byte at the cursor and advances it by one, as the next step of AppendSpec |
| WriteBuffers.WriteBuffer.Store | model/src/write_buffer.rs:28 | The array store is Put at the cursor position |
| WriteBuffers.WriteBuffer.GetData | model/src/write_buffer.rs:39-52 | get_data yields the frames SelectFrom picks for take = cursor / DATA_LEN + 1, in order |
| Bytes.BeU16 | firmware/src/hw/mod.rs:339 | Two bytes whose big-endian value is the length taken modulo 2^16 |
| Bytes.BeU16Value | firmware/src/hw/mod.rs:313 | The big-endian value is below 2^16, with the high byte as its quotient by 256 and the low byte as its remainder |
| Bytes.BeU16OfValue | firmware/src/hw/mod.rs:313 | Reading two bytes as a u16 and writing the value back gives the same two bytes |
| Emulator.PixelBytes | model/src/emulator.rs:33-36 | Each pixel becomes two bytes |
| Emulator.WriteTo | model/src/emulator.rs:26-56 | The first byte is the card message's tag |
| Emulator.Encode | model/src/emulator.rs:76-97 | The first byte is the emulator message's tag |
| Emulator.FramedLayout | model/src/emulator.rs:39-51 | A framed payload carries its length modulo 2^16, big-endian, at bytes 1-2 and the payload verbatim from byte 3 |
| Emulator.CardLayout | model/src/emulator.rs:26-56 | Display is 0x00, the wrapped 2 * len, then the pixel bytes; Nfc and WriteFlash are tag, u16 length, payload; the other messages are their single tag byte |
| Emulator.EncodeLayout | model/src/emulator.rs:76-97 | Tsc(v) is [0x01, 0x00, 0x01, v]; Nfc and FlashContent are tag, u16 length, payload, 3 + len bytes; Reset is [0x04] |
| Emulator.PixelLayout | model/src/emulator.rs:33-36 | Pixel k is sent as its high byte at 2k and its low byte at 2k + 1 |
| Emulator.DecodePixels | model/src/emulator.rs:33-36 | A reference decoder with no counterpart in the source, added as the round-trip partner of the pixel encoding: it reads half as many pixels as bytes |
| Emulator.PixelRoundTrip | model/src/emulator.rs:33-36 | Decoding the pixel bytes gives the pixels back |
| Emulator.PixelBytesOfDecoded | model/src/emulator.rs:33-36 | Every even-length byte string is the pixel bytes of the pixels read from it |
| Emulator.ReadPayload | model/src/emulator.rs:39-51 | A reference reader with no counterpart in the source, added as the round-trip partner of the framing: a payload read off the stream is below 2^16 bytes and the stream is its frame followed by the rest |
| Emulator.ReadPayloadOf | model/src/emulator.rs:39-51 | For the reference reader, a framed payload that fits is read back with the rest of the stream untouched |
| Emulator.DisplayBodyFramed | model/src/emulator.rs:28-38 | A Display whose byte length fits is the framed pixel bytes |
| Emulator.CardBodyRoundTrip | model/src/emulator.rs:26-56 | The body of every card message that fits reads back as that message under its tag |
| Emulator.CardRoundTrip | model/src/emulator.rs:26-56 | The host reads back exactly the card message written, leaving the rest of the stream |
| Emulator.CardBodyReadIsWritten | model/src/emulator.rs:26-56 | Whatever body is read under a tag is the body of a fitting message with that tag, followed by the rest |
| Emulator.CardReadIsWritten | model/src/emulator.rs:26-56 | Every card message the host reads is a frame the card could have written, followed by the rest of the stream |
| Emulator.EmulatorBodyRoundTrip | model/src/emulator.rs:76-97 | The body of every emulator message that fits reads back as that message under its tag |
| Emulator.EmulatorRoundTrip | model/src/emulator.rs:76-97 | The card reads back exactly the emulator message encoded, leaving the rest of the stream |
| Emulator.EmulatorBodyReadIsEncoded | model/src/emulator.rs:76-97 | Whatever body is read under a tag is the body of a fitting message with that tag, followed by the rest |
| Emulator.EmulatorReadIsEncoded | model/src/emulator.rs:76-97 | Every emulator message the card reads is a frame the host could have encoded, followed by the rest |
| Emulator.WriteToInjective | model/src/emulator.rs:26-56 | Distinct card messages whose payloads fit have distinct encodings |
| Emulator.EncodeInjective | model/src/emulator.rs:76-97 | Distinct emulator messages whose payloads fit have distinct encodings |
| Emulator.DisplayLengthField | model/src/emulator.rs:28-38 | When it fits, the Display length field is twice the pixel count |
| Emulator.DisplayLengthWraps | model/src/emulator.rs:28-38 | The u16 Display length wraps: 32768 pixels are announced as length 0 |
| FlashStore.FlashBank.Opposite | firmware/src/hw/mod.rs:458-465 | The opposite bank is the other bank |
| FlashStore.OppositeInvolution | firmware/src/hw/mod.rs:458-465 | Taking the opposite bank twice gives the bank back |
| FlashStore.PhysicalBankPage | firmware/src/hw/mod.rs:407-412 | A page below 256 lands in the lower 256 absolute pages iff the bank is Bank1, at the same offset within its bank |
| FlashStore.BankPagesDisjoint | firmware/src/hw/mod.rs:407-412 | Within 256 pages per bank, two (bank, page) pairs map to the same absolute page iff they are equal |
| FlashStore.BankToFlash.GetLogicalAddress | firmware/src/hw/mod.rs:414-420 | Active is the address of relative page `page` (Bank1's numbering) and Spare that of `page + 256` (Bank2's), whatever `physical` is |
| FlashStore.BankToFlash.GetPhysicalPage | firmware/src/hw/mod.rs:422-428 | The absolute page keeps the offset within its bank, and lies in the lower bank iff Active is asked for with `physical` Bank2 or Spare with `physical` Bank1 |
| FlashStore.AddressBacking | firmware/src/hw/mod.rs:437-451 | A relative page (as addresses number it) is backed by a physical page at the same offset within a bank, below 512 |
| FlashStore.AddressBackingInjective | firmware/src/hw/mod.rs:437-451 | Distinct relative pages are backed by distinct physical pages |
| FlashStore.LogicalPagesFollowBoot | firmware/src/hw/mod.rs:414-420 | The Active logical page is backed by the running bank's physical page and the Spare one by the other bank's |
| FlashStore.ActiveSpareOpposite | firmware/src/hw/mod.rs:422-428 | Active and Spare pages lie in opposite banks, and swapping the physical bank swaps them |
| FlashStore.PageImage | firmware/src/hw/mod.rs:334-342 | A payload is refused with CorruptedData iff it is longer than PAGE_SIZE - 2; otherwise the image is exactly PAGE_SIZE bytes |
| FlashStore.DecodePageAsWritten | firmware/src/hw/mod.rs:313-318 | As written, a stored length of PAGE_SIZE - 2 or more is refused, and otherwise that many bytes after the length field are returned |
| FlashStore.DecodePage | firmware/src/hw/mod.rs:313-318 | With write_flash's bound, only a stored length above PAGE_SIZE - 2 is refused, and otherwise that many bytes after the length field are returned |
| FlashStore.PageImageLayout | firmware/src/hw/mod.rs:338-342 | The image is the big-endian length, the payload, then zero padding |
| FlashStore.PageRoundTripAsWritten | firmware/src/hw/mod.rs:313-318 | As written, a payload shorter than PAGE_SIZE - 2 reads back as itself |
| FlashStore.FullPayloadNotReadBack | firmware/src/hw/mod.rs:314 | As written, a payload of exactly PAGE_SIZE - 2 bytes is stored but reads back as CorruptedData |
| FlashStore.PageRoundTrip | firmware/src/hw/mod.rs:334-342 | With the matching bound, every payload write_flash accepts reads back as itself |
| FlashStore.ReadersAgreeElsewhere | firmware/src/hw/mod.rs:314 | The two readers differ exactly on a stored length of PAGE_SIZE - 2 |
| FlashStore.ErasedPageIsCorrupted | firmware/src/hw/mod.rs:313-318 | An erased (all 0xFF) page reads as CorruptedData under either bound |
| FlashStore.ErasePage | firmware/src/hw/mod.rs:322-329 | The erased page is page `page` of the running bank, in absolute numbering |
| FlashStore.EraseHitsWrittenPage | firmware/src/hw/mod.rs:322-346 | The erased page is the page the write lands on iff the device runs from Bank1 or the page is below 256; from Bank2 a page of 256 or more is erased outside both banks |
| FlashStore.ReadPage | firmware/src/hw/mod.rs:301-319 | With write_flash's bound: a never-written page reads as CorruptedData, the only error, and a payload read is at most PAGE_SIZE - 2 bytes |
| FlashStore.ReadPageAsWritten | firmware/src/hw/mod.rs:301-319 | As written: a never-written page reads as CorruptedData, the only error, and a payload read is shorter than PAGE_SIZE - 2 bytes |
| FlashStore.WritePage | firmware/src/hw/mod.rs:321-349 | A successful write keeps every page of the store PAGE_SIZE bytes long |
| FlashStore.ReadAfterWrite | firmware/src/hw/mod.rs:301-349 | With the corrected reader, reading a written page gives the payload back and every other page reads as before |
| FlashStore.ReadAfterWriteAsWritten | firmware/src/hw/mod.rs:301-349 | With read_flash as written, a written page reads back when the payload is shorter than PAGE_SIZE - 2, reads as CorruptedData when it is exactly PAGE_SIZE - 2, and every other page reads as before |
| FlashStore.RefusedWriteChangesNothing | firmware/src/hw/mod.rs:334-336 | A write is refused, leaving the store as it was, iff the payload is longer than PAGE_SIZE - 2 |
| FlashStore.Flash.constructor | firmware/src/hw/mod.rs:296-299 | A flash handle over a well-formed page store, in the given boot mode |
| FlashStore.Flash.WriteFlash | firmware/src/hw/mod.rs:321-349 | write_flash returns WritePage's error with the store untouched, or Ok with the store WritePage computes |
| FlashStore.Flash.ReadFlash | firmware/src/hw/mod.rs:301-319 | read_flash returns what ReadPage decodes from the physical page behind `page`'s address |

## Left out

- Elliptic-curve and hash primitives are fields of `Crypto` and are not interpreted. These are ECDSA low-R and Schnorr signing, BIP32 `derive_priv`, the BIP341 tap tweak, the ECDSA and taproot sighash computations, the txid and the xpub fingerprint.
- The `.expect` signature verifications in `sign_psbt_ecdsa` and `sign_psbt_schnorr` are taken to pass. `derive_priv(..).unwrap()` is taken to succeed. Their panic paths are not modelled.
- InputSigner.SignPsbtEcdsa: always signs with low-R grinding. The source's `allow_grinding` flag and its plain `sign_ecdsa` branch are left out, because the only caller passes `true`.
- The network field of the derived private key plays no part in signing and is not kept.
- `secp` contexts are not modelled; the `Crypto` value stands for them.
- `SignerError`'s Display strings are formatting only and are not modelled.
- The HAL calls to unlock, erase, write and read flash are not modelled. The store is a map from physical page numbers to page contents, so `FlashError::Flash` is never produced. `FlashPage::to_address` is a parameter of `GetLogicalAddress`.
- Addresses are relative to the booted bank, which is mapped at the flash base: relative pages 0-255 are the running bank and 256-511 the other bank (`AddressBacking`). Relative pages of 512 or more lie outside the flash and are not modelled, so `ReadPage` and `Flash.ReadFlash` take pages below 512.
- FlashStore.WritePage: only pages below 256 are modelled, the pages where the erase and the write hit the same physical page (`EraseHitsWrittenPage`). From Bank2 a larger page number erases outside both banks and programs a page that was not erased; the model does not say what the flash does then. The same bound applies to `Flash.WriteFlash`, `ReadAfterWrite`, `ReadAfterWriteAsWritten` and `RefusedWriteChangesNothing`.
- FlashStore.Flash.ReadFlash: reads with the corrected bound (`DecodePage`). The source's bound is modelled separately by `DecodePageAsWritten` and `ReadPageAsWritten`; see Findings.
- FlashStore.ReadAfterWrite: holds for the corrected reader only. As written, a 2046-byte payload reads back as CorruptedData, which `ReadAfterWriteAsWritten` states.
- Hardware bring-up in `firmware/src/hw/mod.rs` is not modelled: `init_peripherals`, `enable_debug_during_sleep`, `create_fake_clocks_with_hsi48_on`, `TscEnable` and `make_nfc_channels`. It consists of register pokes, interrupts and RTIC channels.
- `EmulatorMessage::from_request` (it needs a Noise cipher) and `EmulatorMessage::to_string` (formatting) are not modelled.
- `model/src/encryption.rs`, `model/src/reg.rs` and `sdk/src/bin/decrypt.rs` are not part of this model. They are library wrappers, register declarations and CLI I/O.
- `MessageFragment` is reduced to the sequence of its filled bytes, which is all `append` reads.
- `WriteBufferInit::new` has no body in the source and is not modelled.
- WriteBuffers.WriteBuffer.InitFields: takes the array by reference, where the source moves the array into the struct.
- The write buffer is modelled for the layouts its instantiations use: `NUM_BUFS >= 1` and `PREFIX_LEN + 1 < DATA_LEN`.
- Cursor arithmetic is unbounded. The source's `usize` cursor cannot overflow for these buffer sizes.
- Emulator.CardLayout: the Display length `len as u16 * 2` is modelled with release-build 16-bit wrap-around. The overflow panic of a debug build is not modelled.
- Emulator.WriteTo: the iterator is modelled as the byte sequence it yields.

## Findings

| source | as written | input that shows it | evidently intended | confidence | as-written member | corrected member |
|---|---|---|---|---|---|---|
| firmware/src/hw/mod.rs:314 | `read_flash` refuses a stored length `len >= PAGE_SIZE - 2` | a 2046-byte payload: `write_flash` accepts it (its check at line 334 refuses only lengths above 2046), but `read_flash` then reports CorruptedData | refuse only `len > PAGE_SIZE - 2`, the bound `write_flash` uses, so every stored payload reads back | not executed | FlashStore.FullPayloadNotReadBack | FlashStore.PageRoundTrip |
