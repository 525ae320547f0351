/** openvpn_encrypt and openvpn_decrypt (crypto.c) on buffers, in CBC mode or without a cipher. */
module PacketCrypto {
  import opened Bytes
  import opened Encryption
  import opened Integers
  import opened PacketBuffers
  import opened PacketIds
  import opened Wrappers

  const FRAME_HEADROOM_MARKER_DECRYPT := 1

  /** packet_id_write, in front of what is there */
  method WritePin(pin: Pin, buf: PacketBuffer, longForm: bool) returns (ok: bool)
    requires buf.Valid() && (longForm ==> 0 <= pin.time < WORD_LIMIT)
    modifies buf
    ensures buf.Valid() && buf.capacity == old(buf.capacity) && (ok <==> |PinBytes(pin, longForm)| <= old(buf.offset))
    ensures ok ==> buf.content == PinBytes(pin, longForm) + old(buf.content)
    ensures ok ==> buf.offset == old(buf.offset) - |PinBytes(pin, longForm)|
  {
    if longForm {
      ok := buf.WritePrepend(ToNetwork(pin.time));
      if !ok {
        return;
      }
    }
    ok := buf.WritePrepend(ToNetwork(pin.id));
    assert [] + old(buf.content) == old(buf.content);
    assert ToNetwork(pin.id) + (PinBytes(pin, longForm)[4..] + old(buf.content))
        == PinBytes(pin, longForm) + old(buf.content);
  }

  /** packet_id_read */
  method TakePin(buf: PacketBuffer, longForm: bool) returns (pin: Option<Pin>)
    requires buf.Valid()
    modifies buf
    ensures buf.Valid()
    ensures match ReadPin(old(buf.content), longForm)
            case None => pin == None
            case Some((p, rest)) => pin == Some(p) && buf.content == rest
  {
    var id := buf.Read(4);
    if id == None {
      return None;
    }
    if !longForm {
      return Some(Pin(0, FromNetwork(id.value)));
    }
    var time := buf.Read(4);
    if time == None {
      return None;
    }
    assert old(buf.content)[4..8] == time.value;
    return Some(Pin(FromNetwork(time.value), FromNetwork(id.value)));
  }

  /**
   * The room that the frame accounting leaves: other layers put no more in front of the payload than
   * their part of extra_frame, and the work buffer has the size it is allocated with.
   */
  ghost predicate Roomy(f: Frame, o: CryptoOptions, buf: PacketBuffer, work: PacketBuffer)
    reads buf, work
  {
    && Accounts(f, o) && |buf.content| <= PayloadSize(f) + Others(f, o)
    && buf.offset >= Headroom(f, 0) - Others(f, o) && work.capacity == BufSize(f)
  }

  /** openvpn_encrypt; ok is false for a failed assertion, and an empty packet is one that was dropped. */
  method Encrypt(buf: PacketBuffer, work: PacketBuffer, o: CryptoOptions, f: Frame, pin: Pin, iv: Text)
    returns (ok: bool)
    requires buf != work && buf.Valid() && work.Valid() && Sound(o) && Sendable(o, pin, iv)
    modifies buf, work
    ensures buf.Valid()
    ensures old(buf.content) == [] ==> ok && buf.content == []
    ensures old(buf.content) != [] && old(Roomy(f, o, buf, work)) ==>
      ok && buf.content == Wire(o, pin, iv, old(buf.content)) && |buf.content| <= ExpandedSize(f)
    ensures ok ==> buf.content == [] || buf.content == Wire(o, pin, iv, old(buf.content))
  {
    hide Wire, PinBytes, Body, Signed, Sound;
    if buf.content == [] {
      return true;
    }
    ghost var payload, roomy := buf.content, Roomy(f, o, buf, work);
    EncryptRoom(f, o, pin, iv, payload);
    if o.packetId {
      ok := WritePin(pin, buf, o.longForm);
      if !ok {
        return;
      }
    }
    assert [] + payload == payload;
    assert buf.content == Plain(o, pin, payload);
    var dropped;
    ok, dropped := Seal(buf, work, o, f, iv);
    if !ok {
      return;
    }
    if dropped {
      buf.Drop();
      return;
    }
    ok := Sign(work, o);
    if ok {
      buf.Assign(work);
    }
  }

  /** The sums behind Roomy. */
  lemma EncryptRoom(f: Frame, o: CryptoOptions, pin: Pin, iv: Text, payload: Text)
    requires Sound(o) && Sendable(o, pin, iv)
    ensures Wire(o, pin, iv, payload) == Signed(o, Body(o, iv, Plain(o, pin, payload)))
    ensures o.packetId ==> |PinBytes(pin, o.longForm)| == if o.longForm then 8 else 4
    ensures Accounts(f, o) && |payload| <= PayloadSize(f) + Others(f, o) ==>
      && |Wire(o, pin, iv, payload)| <= ExpandedSize(f)
      && (o.cipher.Some? ==> Headroom(f, 0) + |Plain(o, pin, payload)| + o.cipher.value.blockSize <= BufSize(f))
      && Headroom(f, 0) - Others(f, o) >= Overhead(o)
  {
    if Accounts(f, o) && |payload| <= PayloadSize(f) + Others(f, o) {
      WireFits(f, o, pin, iv, payload);
    }
  }

  /** The encryption of what buf holds into the work buffer, with the IV in front; without a cipher work becomes buf. */
  method Seal(buf: PacketBuffer, work: PacketBuffer, o: CryptoOptions, f: Frame, iv: Text)
    returns (ok: bool, dropped: bool)
    requires buf != work && buf.Valid() && work.Valid() && Sound(o)
    requires o.cipher.Some? ==> |iv| == o.cipher.value.blockSize
    modifies work
    ensures work.Valid()
    ensures ok && !dropped ==> work.content == Body(o, iv, buf.content)
    ensures o.cipher.None? ==> ok && !dropped && work.offset == buf.offset
    ensures o.cipher.Some? && old(work.capacity) >= Headroom(f, 0) + |buf.content| + o.cipher.value.blockSize
            && Headroom(f, 0) >= (if o.useIv then |iv| else 0) ==>
      ok && !dropped && work.offset == Headroom(f, 0) - if o.useIv then |iv| else 0
  {
    ok, dropped := true, false;
    match o.cipher {
      case None =>
        work.Assign(buf);
      case Some(c) =>
        ok := work.Init(Headroom(f, 0));
        if !ok {
          return;
        }
        if !work.Safe(|buf.content| + c.blockSize) {
          return true, true;
        }
        ok := work.Write(c.encrypt(iv, buf.content));
        assert [] + c.encrypt(iv, buf.content) == c.encrypt(iv, buf.content);
        if o.useIv {
          ok := work.WritePrepend(iv);
        }
    }
  }

  /** The HMAC is put in front. */
  method Sign(work: PacketBuffer, o: CryptoOptions) returns (ok: bool)
    requires work.Valid() && Sound(o)
    modifies work
    ensures work.Valid() && (ok ==> work.content == Signed(o, old(work.content)))
    ensures ok <==> o.hmac.None? || old(work.offset) >= o.hmac.value.size
  {
    ok := true;
    if o.hmac.Some? {
      ok := work.WritePrepend(o.hmac.value.digest(work.content));
    }
  }

  /**
   * What becomes of a packet, with the window of received ids before and after: it does not come apart, or has no id
   * to ask about, or the window decides.
   */
  ghost predicate Decided(o: CryptoOptions, wire: Text, before: Rec, now: int, accepted: bool, content: Text,
                          after: Rec) {
    match Unwire(o, wire)
    case None => !accepted && content == [] && after == before
    case Some((payload, None)) => accepted && content == payload && after == before
    case Some((payload, Some(pin))) =>
      var r := ReapTest(before, now);
      && (accepted <==> Test(r, pin))
      && content == (if accepted then payload else [])
      && after == if accepted then Add(r, pin, now) else r
  }

  /**
   * openvpn_decrypt, with the window of received ids that it asks; the work buffer has the size it
   * is allocated with.
   */
  method Decrypt(buf: PacketBuffer, work: PacketBuffer, o: CryptoOptions, f: Frame, rec: PacketIdRec, now: int)
    returns (accepted: bool)
    requires buf != work && buf.Valid() && work.Valid() && rec.Valid() && Sound(o)
    requires Accounts(f, o) && work.capacity == BufSize(f) && buf !in rec.Repr() && work !in rec.Repr()
    modifies buf, work, rec.Repr()
    ensures buf.Valid() && rec.Valid() && rec.Repr() == old(rec.Repr())
    ensures old(buf.content) == [] ==> accepted && buf.content == [] && rec.Value() == old(rec.Value())
    ensures old(buf.content) != [] ==>
      || Decided(o, old(buf.content), old(rec.Value()), now, accepted, buf.content, rec.Value())
      || (|old(buf.content)| > ExpandedSize(f) && !accepted && buf.content == [] && rec.Value() == old(rec.Value()))
    ensures old(buf.content) != [] && accepted ==>
      Authentic(o, old(buf.content)) && exists pin :: Genuine(o, old(buf.content), pin, buf.content)
  {
    hide Sound, Genuine, Authentic, Unsigned, Opened, Unpacked, Accounts, Headroom, Test, Add, ReapTest;
    if buf.content == [] {
      return true;
    }
    ghost var wire := buf.content;
    accepted := Verify(buf, o);
    if accepted {
      accepted := Open(buf, work, o, f);
    }
    if !accepted {
      buf.Drop();
      return;
    }
    var pin;
    accepted, pin := Unpack(work, o);
    if !accepted {
      buf.Drop();
      return;
    }
    if pin != None {
      accepted := Admit(rec, pin.value, now);
      if !accepted {
        buf.Drop();
        return;
      }
    }
    buf.Assign(work);
    accepted := true;
    ghost var carried := OnlyGenuineComesApart(o, wire);
  }

  /** The packet id is taken off; the receiver may have been told to ignore it. */
  method Unpack(work: PacketBuffer, o: CryptoOptions) returns (ok: bool, pin: Option<Pin>)
    requires work.Valid()
    modifies work
    ensures work.Valid()
    ensures
      match Unpacked(o, old(work.content))
      case None => !ok
      case Some((payload, p)) => ok && work.content == payload && pin == p
  {
    hide ReadPin;
    ok, pin := true, None;
    if o.packetId {
      pin := TakePin(work, o.longForm);
      if pin == None {
        return false, None;
      }
      if o.cipher.None? && o.ignorePacketId {
        pin := None;
      }
    }
  }

  /** The replay window is reaped when that is due, asked, and told of the packet. */
  method Admit(rec: PacketIdRec, pin: Pin, now: int) returns (ok: bool)
    requires rec.Valid()
    modifies rec.Repr()
    ensures rec.Valid() && rec.Repr() == old(rec.Repr())
    ensures var r := ReapTest(old(rec.Value()), now);
            (ok <==> Test(r, pin)) && rec.Value() == if ok then Add(r, pin, now) else r
  {
    hide Test, Add, ReapTest;
    rec.ReapWindowTest(now);
    ok := rec.TestPin(pin);
    if ok {
      rec.AddPin(pin, now);
    }
  }

  /** The HMAC is compared and taken off. */
  method Verify(buf: PacketBuffer, o: CryptoOptions) returns (ok: bool)
    requires buf.Valid() && Sound(o)
    modifies buf
    ensures buf.Valid() && |buf.content| <= |old(buf.content)|
    ensures match Unsigned(o, old(buf.content)) case None => !ok case Some(body) => ok && buf.content == body
    ensures ok <==> Authentic(o, old(buf.content))
    ensures ok && o.hmac.Some? ==> buf.content == old(buf.content)[o.hmac.value.size..]
  {
    if o.hmac.None? {
      return true;
    }
    var h := o.hmac.value;
    if |buf.content| < h.size || h.digest(buf.content[h.size..]) != buf.content[..h.size] {
      return false;
    }
    ghost var wire := buf.content;
    var mac := buf.Read(h.size);
    assert buf.content == wire[h.size..];
    return true;
  }

  /** What the cipher hides is written to the work buffer; without a cipher that is the packet itself. */
  method Open(buf: PacketBuffer, work: PacketBuffer, o: CryptoOptions, f: Frame) returns (ok: bool)
    requires buf != work && buf.Valid() && work.Valid() && Sound(o)
    requires Accounts(f, o) && work.capacity == BufSize(f)
    modifies buf, work
    ensures buf.Valid() && work.Valid()
    ensures ok ==> Opened(o, old(buf.content)) == Some(work.content)
    ensures !ok ==> Opened(o, old(buf.content)).None? || |old(buf.content)| > ExpandedSize(f)
  {
    if o.cipher.None? {
      work.Assign(buf);
      return true;
    }
    var c := o.cipher.value;
    ok := work.Init(Headroom(f, FRAME_HEADROOM_MARKER_DECRYPT));
    var iv := Zeroes(c.blockSize);
    if o.useIv {
      ghost var body := buf.content;
      var got := buf.Read(c.blockSize);
      if got == None {
        return false;
      }
      iv := got.value;
      assert iv == body[..c.blockSize] && buf.content == body[c.blockSize..];
    }
    if |buf.content| < 1 || !work.Safe(|buf.content|) {
      return false;
    }
    var plain := c.decrypt(iv, buf.content);
    if plain == None {
      return false;
    }
    ok := work.Write(plain.value);
    assert [] + plain.value == plain.value;
  }
}
