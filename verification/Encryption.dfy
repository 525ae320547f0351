/**
 * The layers of a data packet (crypto.c): packet id, cipher in CBC mode, IV and HMAC, in buffers whose
 * headroom comes from the frame accounting of mtu.h. Cipher and HMAC are any functions that keep lengths
 * and, for the cipher, can be undone.
 */
module Encryption {
  import opened Bytes
  import opened Integers
  import opened PacketIds
  import opened Wrappers

  type Text = seq<Byte>

  /** The IV is as long as a block, as the code asserts. */
  datatype Cipher = Cipher(blockSize: nat, encrypt: (Text, Text) -> Text, decrypt: (Text, Text) -> Option<Text>)

  datatype Hmac = Hmac(size: nat, digest: Text -> Text)

  /** Padding fills up, or adds, one block. */
  ghost predicate SoundCipher(c: Cipher) {
    c.blockSize > 0 &&
    forall iv: Text, p: Text ::
      && |p| < |c.encrypt(iv, p)| <= |p| + c.blockSize && c.decrypt(iv, c.encrypt(iv, p)) == Some(p)
      && (c.decrypt(iv, p).Some? ==> |c.decrypt(iv, p).value| <= |p|)
  }

  ghost predicate SoundHmac(h: Hmac) {
    forall t: Text :: |h.digest(t)| == h.size
  }

  datatype CryptoOptions = CryptoOptions(cipher: Option<Cipher>, hmac: Option<Hmac>, useIv: bool,
                                         packetId: bool, longForm: bool, ignorePacketId: bool)

  ghost predicate Sound(o: CryptoOptions) {
    (o.cipher.Some? ==> SoundCipher(o.cipher.value)) && (o.hmac.Some? ==> SoundHmac(o.hmac.value))
  }

  // ----- what goes over the wire -----

  function PinBytes(pin: Pin, longForm: bool): Text
    requires longForm ==> 0 <= pin.time < WORD_LIMIT
  {
    ToNetwork(pin.id) + if longForm then ToNetwork(pin.time) else []
  }

  /** packet_id_read */
  function ReadPin(t: Text, longForm: bool): Option<(Pin, Text)> {
    if |t| < 4 then None
    else if !longForm then Some((Pin(0, FromNetwork(t[..4])), t[4..]))
    else if |t| < 8 then None
    else Some((Pin(FromNetwork(t[4..8]), FromNetwork(t[..4])), t[8..]))
  }

  /** The id as it arrives: the short form carries no time. */
  function Carried(pin: Pin, longForm: bool): Pin {
    if longForm then pin else Pin(0, pin.id)
  }

  ghost predicate Sendable(o: CryptoOptions, pin: Pin, iv: Text) {
    && (o.packetId && o.longForm ==> 0 <= pin.time < WORD_LIMIT)
    && (o.cipher.Some? ==> |iv| == o.cipher.value.blockSize && (!o.useIv ==> iv == Zeroes(|iv|)))
  }

  function Zeroes(n: nat): (t: Text)
    ensures |t| == n
  {
    seq(n, _ => 0)
  }

  /** Packet id and payload. */
  function Plain(o: CryptoOptions, pin: Pin, payload: Text): Text
    requires o.packetId && o.longForm ==> 0 <= pin.time < WORD_LIMIT
  {
    (if o.packetId then PinBytes(pin, o.longForm) else []) + payload
  }

  function Body(o: CryptoOptions, iv: Text, plain: Text): Text {
    match o.cipher
    case None => plain
    case Some(c) => (if o.useIv then iv else []) + c.encrypt(iv, plain)
  }

  function Signed(o: CryptoOptions, body: Text): Text {
    match o.hmac
    case None => body
    case Some(h) => h.digest(body) + body
  }

  function Wire(o: CryptoOptions, pin: Pin, iv: Text, payload: Text): Text
    requires o.packetId && o.longForm ==> 0 <= pin.time < WORD_LIMIT
  {
    Signed(o, Body(o, iv, Plain(o, pin, payload)))
  }

  // ----- and how it is taken apart -----

  function Unsigned(o: CryptoOptions, wire: Text): Option<Text> {
    match o.hmac
    case None => Some(wire)
    case Some(h) => if |wire| < h.size || h.digest(wire[h.size..]) != wire[..h.size] then None else Some(wire[h.size..])
  }

  function Opened(o: CryptoOptions, body: Text): Option<Text> {
    match o.cipher
    case None => Some(body)
    case Some(c) =>
      if o.useIv && |body| < c.blockSize then None
      else
        var ct := if o.useIv then body[c.blockSize..] else body;
        if |ct| < 1 then None
        else c.decrypt(if o.useIv then body[..c.blockSize] else Zeroes(c.blockSize), ct)
  }

  /** The payload, and the packet id that the replay window is asked about. */
  function Unpacked(o: CryptoOptions, plain: Text): Option<(Text, Option<Pin>)> {
    if !o.packetId then Some((plain, None))
    else
      match ReadPin(plain, o.longForm)
      case None => None
      case Some((pin, payload)) => Some((payload, if o.cipher.None? && o.ignorePacketId then None else Some(pin)))
  }

  function Unwire(o: CryptoOptions, wire: Text): Option<(Text, Option<Pin>)> {
    match Unsigned(o, wire)
    case None => None
    case Some(body) =>
      match Opened(o, body)
      case None => None
      case Some(plain) => Unpacked(o, plain)
  }

  /** Whether the receiver asks its window about the packet id. */
  predicate Asks(o: CryptoOptions) {
    o.packetId && (o.cipher.Some? || !o.ignorePacketId)
  }

  lemma PinRoundTrip(pin: Pin, longForm: bool, payload: Text)
    requires longForm ==> 0 <= pin.time < WORD_LIMIT
    ensures ReadPin(PinBytes(pin, longForm) + payload, longForm) == Some((Carried(pin, longForm), payload))
  {
    var t := PinBytes(pin, longForm) + payload;
    NetworkRoundTrip(pin.id);
    assert t[..4] == ToNetwork(pin.id);
    if longForm {
      NetworkRoundTrip(pin.time);
      assert t[4..8] == ToNetwork(pin.time) && t[8..] == payload;
    } else {
      assert t[4..] == payload;
    }
  }

  /** The long form is the short form with the time behind it. */
  lemma LongExtendsShort(pin: Pin)
    requires 0 <= pin.time < WORD_LIMIT
    ensures PinBytes(pin, false) == ToNetwork(pin.id)
    ensures PinBytes(pin, true) == PinBytes(pin, false) + ToNetwork(pin.time)
  {
    assert ToNetwork(pin.id) + [] == ToNetwork(pin.id);
  }

  /** Only the bytes of an id are read as that id. */
  lemma ReadPinExact(t: Text, longForm: bool)
    requires ReadPin(t, longForm).Some?
    ensures
      var (pin, rest) := ReadPin(t, longForm).value;
      (longForm ==> 0 <= pin.time < WORD_LIMIT) && PinBytes(pin, longForm) + rest == t
  {
    WordRoundTrip(t[..4]);
    if longForm {
      WordRoundTrip(t[4..8]);
      assert t[..4] + t[4..8] + t[8..] == t;
    } else {
      assert t[..4] + [] + t[4..] == t;
    }
  }

  // ----- which packets come apart -----

  /** The packet begins with the HMAC of the rest of it. */
  ghost predicate Authentic(o: CryptoOptions, wire: Text) {
    o.hmac.Some? ==>
      var h := o.hmac.value;
      |wire| >= h.size && wire[..h.size] == h.digest(wire[h.size..])
  }

  /** The body is the IV, where one is used, and something that the cipher turns into plain. */
  ghost predicate Enciphers(o: CryptoOptions, body: Text, plain: Text) {
    match o.cipher
    case None => body == plain
    case Some(c) =>
      exists iv, ct ::
        && body == (if o.useIv then iv else []) + ct && ct != [] && c.decrypt(iv, ct) == Some(plain)
        && |iv| == c.blockSize && (!o.useIv ==> iv == Zeroes(c.blockSize))
  }

  ghost predicate InRange(o: CryptoOptions, pin: Pin) {
    o.packetId && o.longForm ==> 0 <= pin.time < WORD_LIMIT
  }

  /** A packet that carries this id, where ids are sent, and this payload. */
  ghost predicate Genuine(o: CryptoOptions, wire: Text, pin: Pin, payload: Text) {
    && Authentic(o, wire) && InRange(o, pin)
    && Enciphers(o, if o.hmac.Some? then wire[o.hmac.value.size..] else wire, Plain(o, pin, payload))
  }

  /** The HMAC is the whole difference between a packet and its body. */
  lemma AuthenticIsSigned(o: CryptoOptions, wire: Text)
    requires Sound(o)
    ensures Unsigned(o, wire).Some? <==> Authentic(o, wire)
    ensures Authentic(o, wire) ==> Signed(o, Unsigned(o, wire).value) == wire
  {
    if o.hmac.Some? && |wire| >= o.hmac.value.size {
      assert wire[..o.hmac.value.size] + wire[o.hmac.value.size..] == wire;
    }
  }

  lemma OpenedExact(o: CryptoOptions, body: Text, plain: Text)
    ensures Opened(o, body) == Some(plain) <==> Enciphers(o, body, plain)
  {
    if o.cipher.Some? {
      var c := o.cipher.value;
      if Opened(o, body) == Some(plain) {
        var iv, ct := if o.useIv then body[..c.blockSize] else Zeroes(c.blockSize),
                      if o.useIv then body[c.blockSize..] else body;
        assert body == (if o.useIv then iv else []) + ct && ct != [] && c.decrypt(iv, ct) == Some(plain);
      }
      if Enciphers(o, body, plain) {
        var iv, ct :| body == (if o.useIv then iv else []) + ct && ct != [] && c.decrypt(iv, ct) == Some(plain)
          && |iv| == c.blockSize && (!o.useIv ==> iv == Zeroes(c.blockSize));
        assert (iv + ct)[|iv|..] == ct && (iv + ct)[..|iv|] == iv && [] + ct == ct;
      }
    }
  }

  lemma UnpackedExact(o: CryptoOptions, pin: Pin, payload: Text)
    requires InRange(o, pin)
    ensures Unpacked(o, Plain(o, pin, payload)) ==
      Some((payload, if Asks(o) then Some(Carried(pin, o.longForm)) else None))
  {
    hide PinBytes, ReadPin;
    if o.packetId {
      PinRoundTrip(pin, o.longForm, payload);
    } else {
      assert [] + payload == payload;
    }
  }

  /** A genuine packet comes apart into what it carries. */
  lemma GenuineComesApart(o: CryptoOptions, wire: Text, pin: Pin, payload: Text)
    requires Sound(o) && Genuine(o, wire, pin, payload)
    ensures Unwire(o, wire) == Some((payload, if Asks(o) then Some(Carried(pin, o.longForm)) else None))
  {
    hide Sound, Enciphers, Opened, Unpacked, Plain;
    AuthenticIsSigned(o, wire);
    OpenedExact(o, Unsigned(o, wire).value, Plain(o, pin, payload));
    UnpackedExact(o, pin, payload);
  }

  /** And no other packet does: in particular none whose HMAC is wrong. */
  lemma OnlyGenuineComesApart(o: CryptoOptions, wire: Text) returns (pin: Pin)
    requires Sound(o) && Unwire(o, wire).Some?
    ensures Genuine(o, wire, pin, Unwire(o, wire).value.0)
    ensures Unwire(o, wire).value.1 == if Asks(o) then Some(Carried(pin, o.longForm)) else None
  {
    hide Sound, Enciphers, Opened, PinBytes, ReadPin;
    AuthenticIsSigned(o, wire);
    var body := Unsigned(o, wire).value;
    var plain := Opened(o, body).value;
    OpenedExact(o, body, plain);
    pin := Pin(0, 0);
    if o.packetId {
      pin := ReadPin(plain, o.longForm).value.0;
      ReadPinExact(plain, o.longForm);
      ShortTime(plain, o.longForm);
    } else {
      assert [] + plain == plain;
    }
  }

  lemma ShortTime(t: Text, longForm: bool)
    requires ReadPin(t, longForm).Some?
    ensures var pin := ReadPin(t, longForm).value.0; Carried(pin, longForm) == pin
  {
  }

  lemma WireIsGenuine(o: CryptoOptions, pin: Pin, iv: Text, payload: Text)
    requires Sound(o) && Sendable(o, pin, iv)
    ensures Genuine(o, Wire(o, pin, iv, payload), pin, payload)
  {
    hide Plain;
    var plain := Plain(o, pin, payload);
    var body := Body(o, iv, plain);
    if o.hmac.Some? {
      var mac := o.hmac.value.digest(body);
      assert (mac + body)[|mac|..] == body && (mac + body)[..|mac|] == mac;
    }
    if o.cipher.Some? {
      var ct := o.cipher.value.encrypt(iv, plain);
      assert body == (if o.useIv then iv else []) + ct && o.cipher.value.decrypt(iv, ct) == Some(plain);
    }
  }

  /** Decryption gives back the payload and the packet id. */
  lemma WireRoundTrip(o: CryptoOptions, pin: Pin, iv: Text, payload: Text)
    requires Sound(o) && Sendable(o, pin, iv)
    ensures Unwire(o, Wire(o, pin, iv, payload)) == Some((payload,
      if Asks(o) then Some(Carried(pin, o.longForm)) else None))
  {
    WireIsGenuine(o, pin, iv, payload);
    GenuineComesApart(o, Wire(o, pin, iv, payload), pin, payload);
  }

  // ----- sizes (mtu.h) -----

  const PAYLOAD_ALIGN := 4

  /** struct frame */
  datatype Frame = Frame(linkMtu: int, extraFrame: int, extraBuffer: int, extraTun: int, extraLink: int,
                         alignFlags: set<nat>, alignAdjust: int)

  function TunLinkDelta(f: Frame): int { f.extraFrame + f.extraTun }

  function PayloadSize(f: Frame): int { f.linkMtu - f.extraFrame }

  function ExpandedSize(f: Frame): int { f.linkMtu }

  function HeadroomBase(f: Frame): int { TunLinkDelta(f) + f.extraBuffer + f.extraLink }

  function BufSize(f: Frame): int { f.linkMtu - TunLinkDelta(f) + HeadroomBase(f) * 2 }

  /** frame_headroom: the base, and what aligns it with the marked adjustment. */
  function Headroom(f: Frame, marker: nat): (h: int)
    ensures HeadroomBase(f) <= h < HeadroomBase(f) + PAYLOAD_ALIGN
    ensures (h + if marker in f.alignFlags then f.alignAdjust else 0) % PAYLOAD_ALIGN == 0
  {
    var offset := HeadroomBase(f);
    var adjust := if marker in f.alignFlags then f.alignAdjust else 0;
    offset + (PAYLOAD_ALIGN * 0x100_0000 - (offset + adjust)) % PAYLOAD_ALIGN
  }

  /** What crypto_adjust_frame_parameters adds to extra_frame. */
  function Overhead(o: CryptoOptions): nat {
    (if o.packetId then if o.longForm then 8 else 4 else 0)
    + (if o.cipher.Some? && o.useIv then o.cipher.value.blockSize else 0)
    + (if o.cipher.Some? then o.cipher.value.blockSize else 0)
    + (if o.hmac.Some? then o.hmac.value.size else 0)
  }

  const TUN_MTU_MIN := 100

  /** crypto_adjust_frame_parameters */
  function AdjustFrame(f: Frame, o: CryptoOptions): Frame {
    f.(extraFrame := f.extraFrame + Overhead(o))
  }

  /** frame_finalize, with the link MTU given directly or by that of the tun device; None when it is too small. */
  function Finalize(f: Frame, linkMtu: Option<int>, tunMtu: int): Option<Frame> {
    var g := f.(linkMtu := if linkMtu.Some? then linkMtu.value else tunMtu + TunLinkDelta(f));
    if g.linkMtu - TunLinkDelta(g) < TUN_MTU_MIN then None else Some(g.(extraBuffer := g.extraBuffer + PAYLOAD_ALIGN))
  }

  /** The frame of a running tunnel: it was finalized after the overhead of these options was added to it. */
  ghost predicate Accounts(f: Frame, o: CryptoOptions) {
    && f.linkMtu - TunLinkDelta(f) >= TUN_MTU_MIN
    && f.extraBuffer >= PAYLOAD_ALIGN && f.extraTun >= 0 && f.extraLink >= 0
    && f.extraFrame >= Overhead(o)
  }

  lemma FinalizedAccounts(f: Frame, o: CryptoOptions, linkMtu: Option<int>, tunMtu: int)
    requires f.extraFrame >= 0 && f.extraBuffer >= 0 && f.extraTun >= 0 && f.extraLink >= 0
    ensures
      var g := Finalize(AdjustFrame(f, o), linkMtu, tunMtu);
      && (g.Some? ==> Accounts(g.value, o))
      && (g.Some? <==>
            TUN_MTU_MIN <= if linkMtu.Some? then linkMtu.value - TunLinkDelta(f) - Overhead(o) else tunMtu)
  {
  }

  /** What the other layers may have put in front of the payload. */
  function Others(f: Frame, o: CryptoOptions): int { f.extraFrame - Overhead(o) }

  lemma WireLength(o: CryptoOptions, pin: Pin, iv: Text, payload: Text)
    requires Sound(o) && Sendable(o, pin, iv)
    ensures |payload| <= |Wire(o, pin, iv, payload)| <= |payload| + Overhead(o)
  {
  }

  /** A payload of legal size becomes a packet of legal size. */
  lemma WireFits(f: Frame, o: CryptoOptions, pin: Pin, iv: Text, payload: Text)
    requires Sound(o) && Sendable(o, pin, iv) && Accounts(f, o) && |payload| <= PayloadSize(f) + Others(f, o)
    ensures |Wire(o, pin, iv, payload)| <= ExpandedSize(f)
  {
    WireLength(o, pin, iv, payload);
  }
}
