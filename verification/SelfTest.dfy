/** Encryption and decryption together, and the self-test of crypto.c that relies on them. */
module SelfTest {
  import opened Encryption
  import opened Integers
  import opened PacketBuffers
  import opened PacketCrypto
  import opened PacketIds
  import ReplaySafety

  /** A packet encrypted and decrypted again: the payload is back iff the window, if it is asked, accepts the id. */
  method Exchange(buf: PacketBuffer, sealing: PacketBuffer, opening: PacketBuffer, o: CryptoOptions, f: Frame,
                  pin: Pin, iv: Text, rec: PacketIdRec, now: int) returns (accepted: bool)
    requires buf != sealing && buf != opening && sealing != opening
    requires buf.Valid() && sealing.Valid() && opening.Valid() && rec.Valid()
    requires buf !in rec.Repr() && sealing !in rec.Repr() && opening !in rec.Repr()
    requires Sound(o) && Sendable(o, pin, iv) && buf.content != []
    requires Roomy(f, o, buf, sealing) && opening.capacity == BufSize(f)
    modifies buf, sealing, opening, rec.Repr()
    ensures buf.Valid() && rec.Valid() && rec.Repr() == old(rec.Repr())
    ensures !Asks(o) ==> accepted && rec.Value() == old(rec.Value())
    ensures Asks(o) ==>
      var r, p := ReapTest(old(rec.Value()), now), Carried(pin, o.longForm);
      (accepted <==> Test(r, p)) && rec.Value() == if accepted then Add(r, p, now) else r
    ensures buf.content == if accepted then old(buf.content) else []
  {
    hide Sound, Sendable, Wire, Unwire, Test, Add, ReapTest, Carried, Accounts;
    ghost var payload := buf.content;
    RoomyAccounts(f, o, buf, sealing);
    WireRoundTrip(o, pin, iv, payload);
    WireLength(o, pin, iv, payload);
    var ok := Encrypt(buf, sealing, o, f, pin, iv);
    accepted := Decrypt(buf, opening, o, f, rec, now);
  }

  lemma RoomyAccounts(f: Frame, o: CryptoOptions, buf: PacketBuffer, work: PacketBuffer)
    requires Roomy(f, o, buf, work)
    ensures Accounts(f, o)
  {
  }

  // ----- test_crypto -----

  function TunMtuSize(f: Frame): int { f.linkMtu - TunLinkDelta(f) }

  /** A sender and a receiver that have exchanged all packets so far, or none. */
  ghost predicate InStep(send: ReplaySafety.Send, rec: Rec, longForm: bool) {
    && rec.id == send.id && (rec.seqBacktrack > 0 ==> |rec.window| <= rec.seqBacktrack)
    && (if send.id == 0 then rec.time == 0 && send.time == 0 && rec.window == []
        else send.time > SEQ_EXPIRED && rec.time == if longForm then send.time else 0)
  }

  lemma NextAccepted(send: ReplaySafety.Send, rec: Rec, longForm: bool, now: int)
    requires InStep(send, rec, longForm) && now > SEQ_EXPIRED && send.id + 1 < WORD_LIMIT
    ensures
      var (next, pin) := ReplaySafety.AllocOutgoing(send, longForm, now);
      var r, p := ReapTest(rec, now), Carried(pin, longForm);
      Test(r, p) && InStep(next, Add(r, p, now), longForm) && pin.time > SEQ_EXPIRED && next.id == send.id + 1
  {
  }

  /** The data, IV and clock reading of one length. */
  datatype Sample = Sample(data: Text, iv: Text, now: int)

  lemma TestRoom(f: Frame, o: CryptoOptions, n: nat)
    requires Accounts(f, o) && n <= TunMtuSize(f)
    ensures BufSize(f) >= 0 && 0 <= Headroom(f, 0) && Headroom(f, 0) + n <= BufSize(f)
    ensures n <= PayloadSize(f) + Others(f, o) && Others(f, o) >= 0
  {
  }

  /** One turn of the loop: the buffers are those of the source, which passes its workspaces by value. */
  method Round(o: CryptoOptions, f: Frame, rec: PacketIdRec, pin: Pin, sample: Sample)
    returns (accepted: bool, back: Text)
    requires Sound(o) && Accounts(f, o) && 1 <= |sample.data| <= TunMtuSize(f) && Sendable(o, pin, sample.iv)
      && rec.Valid()
    modifies rec.Repr()
    ensures rec.Valid() && rec.Repr() == old(rec.Repr()) && (accepted ==> back == sample.data)
    ensures !Asks(o) ==> accepted && rec.Value() == old(rec.Value())
    ensures Asks(o) ==>
      var r, p := ReapTest(old(rec.Value()), sample.now), Carried(pin, o.longForm);
      (accepted <==> Test(r, p)) && rec.Value() == if accepted then Add(r, p, sample.now) else r
  {
    hide Sound, Sendable, Test, Add, ReapTest, Carried, Accounts, BufSize, Headroom, Others, PayloadSize;
    TestRoom(f, o, |sample.data|);
    var buf := new PacketBuffer(BufSize(f));
    var ok := buf.Init(Headroom(f, 0));
    ok := buf.Write(sample.data);
    assert [] + sample.data == sample.data;
    var sealing := new PacketBuffer(BufSize(f));
    var opening := new PacketBuffer(BufSize(f));
    accepted := Exchange(buf, sealing, opening, o, f, pin, sample.iv, rec, sample.now);
    back := buf.content;
  }

  /**
   * The self-test encrypts and decrypts a packet of every length up to the MTU of the tun device, with the
   * sending and receiving halves of one packet id; false stands for its fatal message. It never fails.
   */
  method TestCrypto(o: CryptoOptions, f: Frame, rec: PacketIdRec, samples: seq<Sample>) returns (ok: bool)
    requires Sound(o) && Accounts(f, o) && TunMtuSize(f) < WORD_LIMIT && |samples| == TunMtuSize(f)
    requires forall i :: 0 <= i < |samples| ==>
      |samples[i].data| == i + 1 && SEQ_EXPIRED < samples[i].now < WORD_LIMIT
        && Sendable(o, Pin(samples[i].now, 1), samples[i].iv)
    requires rec.Valid() && InStep(ReplaySafety.Send(0, 0), rec.Value(), o.longForm)
    modifies rec.Repr()
    ensures ok
  {
    var send := ReplaySafety.Send(0, 0);
    for i := 0 to |samples|
      invariant rec.Valid() && rec.Repr() == old(rec.Repr())
      invariant send.id == i && 0 <= send.time < WORD_LIMIT
      invariant Asks(o) ==> InStep(send, rec.Value(), o.longForm)
    {
      var sample := samples[i];
      var (next, pin) := ReplaySafety.AllocOutgoing(send, o.longForm, sample.now);
      if Asks(o) {
        NextAccepted(send, rec.Value(), o.longForm, sample.now);
      }
      var accepted, back := Round(o, f, rec, pin, sample);
      if !accepted || back != sample.data {
        return false;
      }
      send := next;
    }
    return true;
  }
}
