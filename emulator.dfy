/**
 * The emulator wire format. Messages from the card to the emulator host
 * (`CardMessage::write_to`) and from the host to the card (`EmulatorMessage::encode`)
 * are a one-byte tag, for the variants with a payload a big-endian `u16` length, then
 * the payload.  The readers here are the other end of each link: they take one frame
 * off the front of a byte stream.
 */
module Emulator {
  import opened Wrappers
  import opened Bytes

  datatype CardMessage =
    | Display(pixels: seq<u16>)
    | Nfc(reply: seq<u8>)
    | WriteFlash(data: seq<u8>)
    | ReadFlash
    | Tick
    | FinishBoot
    | FlushDisplay

  datatype EmulatorMessage =
    | Tsc(touched: bool)
    | Nfc(request: seq<u8>)
    | FlashContent(data: seq<u8>)
    | Reset

  /** Each pixel as its high byte then its low byte. */
  function PixelBytes(pixels: seq<u16>): (r: seq<u8>)
    ensures |r| == 2 * |pixels|
  {
    if pixels == [] then []
    else
      var v := pixels[0] as int;
      [(v / 0x100) as u8, (v % 0x100) as u8] + PixelBytes(pixels[1..])
  }

  /** A payload behind its big-endian `u16` length (`len as u16`, so longer payloads wrap). */
  function Framed(payload: seq<u8>): seq<u8> {
    BeU16(|payload|) + payload
  }

  /** The tag byte of each card message. */
  function CardTag(m: CardMessage): u8 {
    match m
    case Display(_) => 0x00
    case Nfc(_) => 0x01
    case Tick => 0x02
    case WriteFlash(_) => 0x03
    case ReadFlash => 0x04
    case FinishBoot => 0x05
    case FlushDisplay => 0x06
  }

  /** What follows the tag. The Display length is `len as u16 * 2`, wrapping in 16 bits. */
  function CardBody(m: CardMessage): seq<u8> {
    match m
    case Display(pixels) => BeU16((|pixels| % U16_MODULUS) * 2) + PixelBytes(pixels)
    case Nfc(reply) => Framed(reply)
    case WriteFlash(data) => Framed(data)
    case _ => []
  }

  /** `CardMessage::write_to`: the tag, then the body. */
  function WriteTo(m: CardMessage): (r: seq<u8>)
    ensures |r| >= 1 && r[0] == CardTag(m)
  {
    [CardTag(m)] + CardBody(m)
  }

  function EmulatorTag(m: EmulatorMessage): u8 {
    match m
    case Tsc(_) => 0x01
    case Nfc(_) => 0x02
    case FlashContent(_) => 0x03
    case Reset => 0x04
  }

  function EmulatorBody(m: EmulatorMessage): seq<u8> {
    match m
    case Tsc(v) => [0x00, 0x01, if v then 0x01 else 0x00]
    case Nfc(req) => Framed(req)
    case FlashContent(data) => Framed(data)
    case Reset => []
  }

  /** `EmulatorMessage::encode`: the tag, then the body. */
  function Encode(m: EmulatorMessage): (r: seq<u8>)
    ensures |r| >= 1 && r[0] == EmulatorTag(m)
  {
    [EmulatorTag(m)] + EmulatorBody(m)
  }

  /** A tag and a framed payload: the length field at bytes 1 and 2, the payload from byte 3. */
  lemma FramedLayout(tag: u8, payload: seq<u8>)
    ensures var r := [tag] + Framed(payload);
      |r| == 3 + |payload| && BeU16Value(r[1], r[2]) == |payload| % U16_MODULUS && r[3..] == payload
  {
    var b := BeU16(|payload|);
    var r := [tag] + Framed(payload);
    assert r == [tag, b[0], b[1]] + payload;
  }

  lemma DisplayLayout(pixels: seq<u16>)
    ensures var r := WriteTo(Display(pixels));
      && |r| == 3 + 2 * |pixels|
      && BeU16Value(r[1], r[2]) == ((|pixels| % U16_MODULUS) * 2) % U16_MODULUS
      && r[3..] == PixelBytes(pixels)
  {
    var b := BeU16((|pixels| % U16_MODULUS) * 2);
    assert WriteTo(Display(pixels)) == [0x00, b[0], b[1]] + PixelBytes(pixels);
  }

  /** The byte layout of each card message. */
  lemma CardLayout(m: CardMessage)
    ensures var r := WriteTo(m);
      match m
      case Display(pixels) =>
        && |r| == 3 + 2 * |pixels|
        && BeU16Value(r[1], r[2]) == ((|pixels| % U16_MODULUS) * 2) % U16_MODULUS
        && r[3..] == PixelBytes(pixels)
      case Nfc(reply) =>
        |r| == 3 + |reply| && BeU16Value(r[1], r[2]) == |reply| % U16_MODULUS && r[3..] == reply
      case WriteFlash(data) =>
        |r| == 3 + |data| && BeU16Value(r[1], r[2]) == |data| % U16_MODULUS && r[3..] == data
      case _ => |r| == 1
  {
    match m {
      case Display(pixels) => DisplayLayout(pixels);
      case Nfc(reply) => FramedLayout(0x01, reply);
      case WriteFlash(data) => FramedLayout(0x03, data);
      case _ =>
    }
  }

  /** The byte layout of each emulator message. */
  lemma EncodeLayout(m: EmulatorMessage)
    ensures var r := Encode(m);
      match m
      case Tsc(v) => r == [0x01, 0x00, 0x01, if v then 0x01 else 0x00]
      case Nfc(req) =>
        |r| == 3 + |req| && BeU16Value(r[1], r[2]) == |req| % U16_MODULUS && r[3..] == req
      case FlashContent(data) =>
        |r| == 3 + |data| && BeU16Value(r[1], r[2]) == |data| % U16_MODULUS && r[3..] == data
      case Reset => r == [0x04]
  {
    match m {
      case Nfc(req) => FramedLayout(0x02, req);
      case FlashContent(data) => FramedLayout(0x03, data);
      case _ =>
    }
  }

  // ---------------------------------------------------------------------------
  // The receiving ends

  /** Pixels from high/low byte pairs. */
  function DecodePixels(bytes: seq<u8>): (r: seq<u16>)
    requires |bytes| % 2 == 0
    ensures |r| == |bytes| / 2
    decreases |bytes|
  {
    if bytes == [] then []
    else [BeU16Value(bytes[0], bytes[1]) as u16] + DecodePixels(bytes[2..])
  }

  /** A length-prefixed payload at the front of `bytes`, and what follows it. */
  function ReadPayload(bytes: seq<u8>): (r: Option<(seq<u8>, seq<u8>)>)
    ensures r.Some? ==> |r.value.0| < U16_MODULUS && bytes == Framed(r.value.0) + r.value.1
  {
    if |bytes| < 2 then None
    else
      var len := BeU16Value(bytes[0], bytes[1]);
      if |bytes| < 2 + len then None
      else
        BeU16OfValue(bytes[0], bytes[1]);
        assert bytes == bytes[..2] + bytes[2..2 + len] + bytes[2 + len..];
        Some((bytes[2..2 + len], bytes[2 + len..]))
  }

  function ReadDisplay(body: seq<u8>): Option<(CardMessage, seq<u8>)> {
    match ReadPayload(body)
    case None => None
    case Some((payload, rest)) =>
      if |payload| % 2 == 0 then Some((Display(DecodePixels(payload)), rest)) else None
  }

  /** The card message with tag `tag` at the front of `body`. */
  function ReadCardBody(tag: u8, body: seq<u8>): Option<(CardMessage, seq<u8>)> {
    if tag == 0x00 then ReadDisplay(body)
    else if tag == 0x01 then
      (match ReadPayload(body) case None => None case Some((p, rest)) => Some((CardMessage.Nfc(p), rest)))
    else if tag == 0x02 then Some((Tick, body))
    else if tag == 0x03 then
      (match ReadPayload(body) case None => None case Some((p, rest)) => Some((WriteFlash(p), rest)))
    else if tag == 0x04 then Some((ReadFlash, body))
    else if tag == 0x05 then Some((FinishBoot, body))
    else if tag == 0x06 then Some((FlushDisplay, body))
    else None
  }

  /** The host's reader: one card message off the front of the stream. */
  function ReadCardMessage(bytes: seq<u8>): Option<(CardMessage, seq<u8>)> {
    if bytes == [] then None else ReadCardBody(bytes[0], bytes[1..])
  }

  /** The emulator message with tag `tag` at the front of `body`. */
  function ReadEmulatorBody(tag: u8, body: seq<u8>): Option<(EmulatorMessage, seq<u8>)> {
    if tag == 0x01 then
      if |body| >= 3 && body[0] == 0x00 && body[1] == 0x01 && (body[2] == 0x00 || body[2] == 0x01)
      then Some((Tsc(body[2] == 0x01), body[3..]))
      else None
    else if tag == 0x02 then
      (match ReadPayload(body) case None => None case Some((p, rest)) => Some((EmulatorMessage.Nfc(p), rest)))
    else if tag == 0x03 then
      (match ReadPayload(body) case None => None case Some((p, rest)) => Some((FlashContent(p), rest)))
    else if tag == 0x04 then Some((Reset, body))
    else None
  }

  /** The card's reader: one emulator message off the front of the stream. */
  function ReadEmulatorMessage(bytes: seq<u8>): Option<(EmulatorMessage, seq<u8>)> {
    if bytes == [] then None else ReadEmulatorBody(bytes[0], bytes[1..])
  }

  // ---------------------------------------------------------------------------
  // Round trips

  /** Payload lengths that fit the `u16` length field. */
  predicate CardFits(m: CardMessage) {
    match m
    case Display(pixels) => 2 * |pixels| < U16_MODULUS
    case Nfc(reply) => |reply| < U16_MODULUS
    case WriteFlash(data) => |data| < U16_MODULUS
    case _ => true
  }

  predicate EmulatorFits(m: EmulatorMessage) {
    match m
    case Nfc(request) => |request| < U16_MODULUS
    case FlashContent(data) => |data| < U16_MODULUS
    case _ => true
  }

  /** Pixel `k` is sent as bytes `2k` (high) and `2k + 1` (low). */
  lemma {:induction false} PixelLayout(pixels: seq<u16>, k: nat)
    requires k < |pixels|
    ensures PixelBytes(pixels)[2 * k] as int == pixels[k] as int / 0x100
    ensures PixelBytes(pixels)[2 * k + 1] as int == pixels[k] as int % 0x100
  {
    if k > 0 {
      PixelLayout(pixels[1..], k - 1);
      assert PixelBytes(pixels)[2 * k] == PixelBytes(pixels[1..])[2 * (k - 1)];
      assert PixelBytes(pixels)[2 * k + 1] == PixelBytes(pixels[1..])[2 * (k - 1) + 1];
    }
  }

  lemma {:induction false} PixelRoundTrip(pixels: seq<u16>)
    ensures DecodePixels(PixelBytes(pixels)) == pixels
  {
    if pixels != [] {
      var b := PixelBytes(pixels);
      assert b[2..] == PixelBytes(pixels[1..]);
      PixelRoundTrip(pixels[1..]);
    }
  }

  lemma {:induction false} PixelBytesOfDecoded(bytes: seq<u8>)
    requires |bytes| % 2 == 0
    ensures PixelBytes(DecodePixels(bytes)) == bytes
    decreases |bytes|
  {
    if bytes != [] {
      PixelBytesOfDecoded(bytes[2..]);
      var v := BeU16Value(bytes[0], bytes[1]);
      assert PixelBytes(DecodePixels(bytes)) == [(v / 0x100) as u8, (v % 0x100) as u8] + PixelBytes(DecodePixels(bytes[2..]));
    }
  }

  lemma ReadPayloadOf(payload: seq<u8>, rest: seq<u8>)
    requires |payload| < U16_MODULUS
    ensures ReadPayload(Framed(payload) + rest) == Some((payload, rest))
  {
    var bytes := Framed(payload) + rest;
    assert bytes[..2] == BeU16(|payload|);
    assert bytes[2..2 + |payload|] == payload && bytes[2 + |payload|..] == rest;
  }

  /** A Display body whose length fits is the framed pixel bytes. */
  lemma DisplayBodyFramed(pixels: seq<u16>)
    requires 2 * |pixels| < U16_MODULUS
    ensures CardBody(Display(pixels)) == Framed(PixelBytes(pixels))
  {
    FitsU16(|pixels|);
    assert (|pixels| % U16_MODULUS) * 2 == |PixelBytes(pixels)|;
  }

  lemma CardBodyRoundTrip(m: CardMessage, rest: seq<u8>)
    requires CardFits(m)
    ensures ReadCardBody(CardTag(m), CardBody(m) + rest) == Some((m, rest))
  {
    match m {
      case Display(pixels) =>
        DisplayBodyFramed(pixels);
        ReadPayloadOf(PixelBytes(pixels), rest);
        PixelRoundTrip(pixels);
      case Nfc(reply) => ReadPayloadOf(reply, rest);
      case WriteFlash(data) => ReadPayloadOf(data, rest);
      case _ => assert CardBody(m) + rest == rest;
    }
  }

  /** The host reads back exactly the message the card wrote, and leaves the rest of the stream alone. */
  lemma CardRoundTrip(m: CardMessage, rest: seq<u8>)
    requires CardFits(m)
    ensures ReadCardMessage(WriteTo(m) + rest) == Some((m, rest))
  {
    assert (WriteTo(m) + rest)[1..] == CardBody(m) + rest;
    CardBodyRoundTrip(m, rest);
  }

  lemma CardBodyReadIsWritten(tag: u8, body: seq<u8>)
    requires ReadCardBody(tag, body).Some?
    ensures var (m, rest) := ReadCardBody(tag, body).value;
      CardFits(m) && CardTag(m) == tag && body == CardBody(m) + rest
  {
    if tag == 0x00 {
      var payload := ReadPayload(body).value.0;
      var pixels := DecodePixels(payload);
      PixelBytesOfDecoded(payload);
      DisplayBodyFramed(pixels);
    }
  }

  /** Whatever the host reads is a frame the card could have written, followed by the rest of the stream. */
  lemma CardReadIsWritten(bytes: seq<u8>)
    requires ReadCardMessage(bytes).Some?
    ensures var (m, rest) := ReadCardMessage(bytes).value;
      CardFits(m) && bytes == WriteTo(m) + rest
  {
    var r := ReadCardBody(bytes[0], bytes[1..]).value;
    CardBodyReadIsWritten(bytes[0], bytes[1..]);
    assert WriteTo(r.0) + r.1 == [bytes[0]] + (CardBody(r.0) + r.1);
  }

  lemma EmulatorBodyRoundTrip(m: EmulatorMessage, rest: seq<u8>)
    requires EmulatorFits(m)
    ensures ReadEmulatorBody(EmulatorTag(m), EmulatorBody(m) + rest) == Some((m, rest))
  {
    match m {
      case Nfc(request) => ReadPayloadOf(request, rest);
      case FlashContent(data) => ReadPayloadOf(data, rest);
      case Tsc(v) => assert (EmulatorBody(m) + rest)[3..] == rest;
      case Reset => assert EmulatorBody(m) + rest == rest;
    }
  }

  /** The card reads back exactly the message the host encoded. */
  lemma EmulatorRoundTrip(m: EmulatorMessage, rest: seq<u8>)
    requires EmulatorFits(m)
    ensures ReadEmulatorMessage(Encode(m) + rest) == Some((m, rest))
  {
    assert (Encode(m) + rest)[1..] == EmulatorBody(m) + rest;
    EmulatorBodyRoundTrip(m, rest);
  }

  lemma EmulatorBodyReadIsEncoded(tag: u8, body: seq<u8>)
    requires ReadEmulatorBody(tag, body).Some?
    ensures var (m, rest) := ReadEmulatorBody(tag, body).value;
      EmulatorFits(m) && EmulatorTag(m) == tag && body == EmulatorBody(m) + rest
  {
    if tag == 0x01 {
      assert body == body[..3] + body[3..];
    }
  }

  /** Whatever the card reads is a frame the host could have encoded, followed by the rest of the stream. */
  lemma EmulatorReadIsEncoded(bytes: seq<u8>)
    requires ReadEmulatorMessage(bytes).Some?
    ensures var (m, rest) := ReadEmulatorMessage(bytes).value;
      EmulatorFits(m) && bytes == Encode(m) + rest
  {
    var r := ReadEmulatorBody(bytes[0], bytes[1..]).value;
    EmulatorBodyReadIsEncoded(bytes[0], bytes[1..]);
    assert Encode(r.0) + r.1 == [bytes[0]] + (EmulatorBody(r.0) + r.1);
  }

  /** Distinct card messages whose payloads fit have distinct encodings. */
  lemma WriteToInjective(m1: CardMessage, m2: CardMessage)
    requires CardFits(m1) && CardFits(m2) && WriteTo(m1) == WriteTo(m2)
    ensures m1 == m2
  {
    CardRoundTrip(m1, []);
    CardRoundTrip(m2, []);
  }

  /** Distinct emulator messages whose payloads fit have distinct encodings. */
  lemma EncodeInjective(m1: EmulatorMessage, m2: EmulatorMessage)
    requires EmulatorFits(m1) && EmulatorFits(m2) && Encode(m1) == Encode(m2)
    ensures m1 == m2
  {
    EmulatorRoundTrip(m1, []);
    EmulatorRoundTrip(m2, []);
  }

  /** Without wrap-around the Display length field is twice the pixel count. */
  lemma DisplayLengthField(pixels: seq<u16>)
    requires 2 * |pixels| < U16_MODULUS
    ensures var w := WriteTo(Display(pixels)); BeU16Value(w[1], w[2]) == 2 * |pixels|
  {
    FitsU16(|pixels|);
    CardLayout(Display(pixels));
  }

  /** The Display length field wraps: 32768 pixels are announced as a zero-length payload. */
  lemma DisplayLengthWraps(pixels: seq<u16>)
    requires |pixels| == U16_MODULUS / 2
    ensures WriteTo(Display(pixels))[1..3] == [0x00, 0x00]
  {
    assert (|pixels| % U16_MODULUS) * 2 == U16_MODULUS;
    assert BeU16(U16_MODULUS) == [0x00, 0x00];
    assert WriteTo(Display(pixels))[1..3] == BeU16(U16_MODULUS);
  }
}
