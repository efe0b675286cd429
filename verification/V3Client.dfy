/** The SNMPv3 client: counters, key derivation, discovery, signed requests and the walk. */
module V3Client {
  import opened Octets
  import opened Results
  import opened Types
  import opened Integers
  import opened BerSpec
  import opened Ber
  import opened Messages
  import opened V3Messages
  import opened Placeholder
  import opened Crypto
  import opened Freshness
  import opened Walk
  import opened V3Session
  import opened Client

  const NO_ENGINE: Engine := Engine([], 0, 0)

  /** The discovery request: no names, no keys, an empty list of varbinds (section 4 of RFC 3414). */
  function DiscoveryPacket(msgId: i32): bytes {
    V3Bytes(Header(msgId, MAX_SIZE, REPORTABLE, USM_MODEL), UsmBytes(Usm([], 0, 0, [], [], [])),
            ScopedBytes([], [], PDU_GET, PduContent(0, 0, 0, [])))
  }

  /** Any decoder finds in the discovery request what section 4 of RFC 3414 asks for. */
  lemma DiscoveryDelivered(msgId: i32)
    ensures var usm := Usm([], 0, 0, [], [], []);
            var scoped := ScopedBytes([], [], PDU_GET, PduContent(0, 0, 0, []));
            && V3MessageOf(DiscoveryPacket(msgId))
               == Ok(V3Message(Header(msgId, MAX_SIZE, REPORTABLE, USM_MODEL), UsmBytes(usm), usm, scoped, false))
            && ScopedOf(scoped) == Ok(ScopedPdu([], [], PDU_GET, 0, 0, 0, []))
  {
    hide V3MessageOf, ScopedOf, V3Content, UsmBytes, ScopedContent, PduContent, ScopedBytes, ReadTlv;
    var h, usm, pdu := Header(msgId, MAX_SIZE, REPORTABLE, USM_MODEL), Usm([], 0, 0, [], [], []), PduContent(0, 0, 0, []);
    var scoped := ScopedBytes([], [], PDU_GET, pdu);
    DiscoveryIsShort(h, usm, pdu);
    ScopedIsElement([], [], PDU_GET, pdu);
    V3RoundTrip(h, usm, scoped, false, []);
    assert Body(scoped, false) == scoped;
    assert DiscoveryPacket(msgId) + [] == DiscoveryPacket(msgId);
    assert VarBindsBytes([], false) == [];
    ScopedRoundTrip([], [], PDU_GET, 0, 0, 0, [], false, []);
    assert scoped + [] == scoped;
  }

  lemma DiscoveryIsShort(h: Header, usm: Usm, pdu: bytes)
    requires usm == Usm([], 0, 0, [], [], []) && pdu == PduContent(0, 0, 0, [])
    ensures |V3Content(h, UsmBytes(usm), ScopedBytes([], [], PDU_GET, pdu))| < LENGTH_LIMIT
    ensures |ScopedContent([], [], PDU_GET, pdu)| < LENGTH_LIMIT
  {
    hide IntBytes, LenBytes;
    IntegerLength(h.msgId);
    IntegerLength(h.maxSize);
    IntegerLength(h.model);
    IntegerLength(3);
    IntegerLength(0);
  }

  /** The engine a discovery reply announces. */
  function Discovered(datagram: Result<bytes>): Result<Engine> {
    var data :- datagram;
    var msg :- V3MessageOf(data);
    :- Need(msg.usm.engineId != [], DiscoveryFailed);
    Ok(Engine(msg.usm.engineId, msg.usm.boots, msg.usm.time))
  }

  /** Engine boots and time follow every message that decodes, whatever becomes of it afterwards. */
  function Synchronized(engine: Engine, datagram: Result<bytes>): Engine {
    if datagram.Ok? && V3MessageOf(datagram.value).Ok? then
      var usm := V3MessageOf(datagram.value).value.usm;
      engine.(boots := usm.boots, time := usm.time)
    else engine
  }

  function ReceivedAll(s: Session, inbox: seq<Result<bytes>>): (replies: seq<Reply>)
    requires s.Ready()
    ensures |replies| == |inbox|
  {
    seq(|inbox|, i requires 0 <= i < |inbox| => Received(s, false, inbox[i]))
  }

  /** Replies depend on keys and protocols only, not on the engine state that changes along a walk. */
  lemma ReceivedInStep(s: Session, t: Session, inbox: seq<Result<bytes>>)
    requires s.Ready() && t == s.(engine := t.engine)
    ensures FirstReply(ReceivedAll(s, inbox)) == Received(t, false, First(inbox))
    ensures LaterReplies(ReceivedAll(s, inbox)) == ReceivedAll(s, Later(inbox))
  {
    hide V3MessageOf, ScopedOf, Decrypted;
    if inbox != [] {
      assert ReceivedAll(s, inbox)[1..] == ReceivedAll(s, Later(inbox));
    }
  }

  // ---- What a walk sends ----

  /** The session after a run of datagrams. */
  function SessionAfter(s: Session, inbox: seq<Result<bytes>>): (t: Session)
    ensures t == s.(engine := t.engine) && t.engine.engineId == s.engine.engineId
    decreases |inbox|
  {
    if inbox == [] then s
    else
      var t := SessionAfter(s, inbox[..|inbox| - 1]);
      t.(engine := Synchronized(t.engine, inbox[|inbox| - 1]))
  }

  datatype Counters = Counters(msgId: i32, requestId: i32, salt: u64)

  /** The counters of the `n`th request from `c` on; salts are drawn only to encrypt. */
  function CountersAfter(s: Session, c: Counters, n: nat): Counters {
    Counters(IdAfter(c.msgId, n), IdAfter(c.requestId, n),
             if s.credentials.privProtocol.Some? then SaltAfter(c.salt, n) else c.salt)
  }

  function AskScoped(s: Session, requestId: i32, oid: Oid): bytes {
    RequestScoped(s, PDU_GETBULK, requestId, 0, MAX_REPETITIONS, VarBindsBytes(NullVarBinds([oid]), false))
  }

  /** The packet with which a walk asks for what follows `oid`. */
  function AskPacket(s: Session, c: Counters, oid: Oid): bytes
    requires s.Ready()
  {
    RequestPacket(s, c.msgId, c.salt, AskScoped(s, c.requestId, oid))
  }

  /** Each packet under the next counters and the engine state of the replies before it. */
  function AskPackets(s: Session, c: Counters, asked: seq<Oid>, inbox: seq<Result<bytes>>): (ps: seq<bytes>)
    requires s.Ready() && |asked| <= |inbox| + 1
    ensures |ps| == |asked|
  {
    seq(|asked|, i requires 0 <= i < |asked| => AskPacket(SessionAfter(s, inbox[..i]), CountersAfter(s, c, i + 1), asked[i]))
  }

  lemma AskPacketsAppend(s: Session, c: Counters, asked: seq<Oid>, oid: Oid, inbox: seq<Result<bytes>>)
    requires s.Ready() && |asked| <= |inbox|
    ensures AskPackets(s, c, asked + [oid], inbox)
         == AskPackets(s, c, asked, inbox)
            + [AskPacket(SessionAfter(s, inbox[..|asked|]), CountersAfter(s, c, |asked| + 1), oid)]
  {
    hide AskPacket, SessionAfter, CountersAfter;
  }

  /** What one more datagram does to session and script. */
  lemma SessionStep(s: Session, inbox: seq<Result<bytes>>, n: nat)
    requires n < |inbox|
    ensures First(inbox[n..]) == inbox[n] && Later(inbox[n..]) == inbox[n + 1..]
    ensures var t := SessionAfter(s, inbox[..n]);
            SessionAfter(s, inbox[..n + 1]) == t.(engine := Synchronized(t.engine, inbox[n]))
  {
    hide Synchronized;
    assert inbox[..n + 1][..n] == inbox[..n];
    assert inbox[n..][1..] == inbox[n + 1..];
  }

  class SnmpV3Client {
    const suite: Suite
    const credentials: Credentials
    const network: Network
    var engine: Engine
    var msgId: i32
    var requestId: i32
    var salt: u64
    var authKey: Option<bytes>
    var privKey: Option<bytes>

    /** The seeds are the three random numbers drawn when a client is created. */
    constructor (suite: Suite, credentials: Credentials, network: Network, msgSeed: i32, requestSeed: i32, saltSeed: u64)
      ensures this.suite == suite && this.credentials == credentials && this.network == network
      ensures engine == NO_ENGINE && authKey == None && privKey == None
      ensures msgId == msgSeed && requestId == requestSeed && salt == saltSeed
    {
      this.suite := suite;
      this.credentials := credentials;
      this.network := network;
      engine := NO_ENGINE;
      msgId, requestId, salt := msgSeed, requestSeed, saltSeed;
      authKey, privKey := None, None;
    }

    /** The part of the state that decides how packets are built and opened. */
    function Current(): Session
      reads this
    {
      Session(suite, credentials, engine, authKey, privKey)
    }

    method NextMsgId() returns (id: i32)
      modifies this`msgId
      ensures id == msgId == NextId(old(msgId))
    {
      msgId := ToI32(msgId + 1);
      if msgId < 0 {
        msgId := 1;
      }
      id := msgId;
    }

    method NextRequestId() returns (id: i32)
      modifies this`requestId
      ensures id == requestId == NextId(old(requestId))
    {
      requestId := ToI32(requestId + 1);
      if requestId < 0 {
        requestId := 1;
      }
      id := requestId;
    }

    method DrawSalt() returns (s: u64)
      modifies this`salt
      ensures s == salt == NextSalt(old(salt))
    {
      salt := ToU64(salt + 1);
      s := salt;
    }

    /** Keys exist exactly for the passwords that protocols ask for; digests make them long enough to use. */
    method DeriveKeys()
      requires suite.Sound()
      modifies this`authKey, this`privKey
      ensures var c := credentials;
              && (c.authProtocol.Some? && c.authPassword.Some? ==>
                    authKey == Some(LocalizedKey(suite, c.authProtocol.value, c.authPassword.value, engine.engineId)))
              && (c.authProtocol.Some? && c.authPassword.Some? && c.privProtocol.Some? && c.privPassword.Some? ==>
                    && privKey == Some(LocalizedKey(suite, c.authProtocol.value, c.privPassword.value, engine.engineId))
                    && Current().Ready())
              && (!(c.authProtocol.Some? && c.authPassword.Some?) ==> authKey == old(authKey))
              && (!(c.authProtocol.Some? && c.authPassword.Some? && c.privProtocol.Some? && c.privPassword.Some?) ==>
                    privKey == old(privKey))
    {
      if credentials.authProtocol.Some? && credentials.authPassword.Some? {
        var protocol := credentials.authProtocol.value;
        var key := PasswordToKey(suite, protocol, credentials.authPassword.value, engine.engineId);
        authKey := Some(key);
        if credentials.privProtocol.Some? && credentials.privPassword.Some? {
          key := PasswordToKey(suite, protocol, credentials.privPassword.value, engine.engineId);
          privKey := Some(key);
        }
      }
    }

    method DiscoverEngine() returns (r: Result<()>)
      modifies this`msgId, this`engine, network
      ensures msgId == NextId(old(msgId))
      ensures network.sent == old(network.sent) + [DiscoveryPacket(msgId)]
      ensures network.inbox == Later(old(network.inbox))
      ensures match Discovered(First(old(network.inbox)))
              case Ok(e) => r == Ok(()) && engine == e
              case Err(e) => r == Err(e) && engine == old(engine)
    {
      hide V3MessageOf, PduContent, UsmBytes;
      var id := NextMsgId();
      var scoped := EncodeScopedPdu([], [], PDU_GET, 0, 0, 0, []);
      var params := EncodeUsmParams(Usm([], 0, 0, [], [], []));
      var packet := EncodeV3Message(Header(id, MAX_SIZE, REPORTABLE, USM_MODEL), params, scoped, false);
      var data :- network.Exchange(packet);
      var msg :- DecodeV3Message(data);
      if msg.usm.engineId == [] {
        return Err(DiscoveryFailed);
      }
      engine := Engine(msg.usm.engineId, msg.usm.boots, msg.usm.time);
      return Ok(());
    }

    method MessageFlags() returns (flags: byte)
      ensures flags == Flags(credentials)
    {
      flags := 0;
      if credentials.authProtocol.Some? {
        flags := Or(flags, 0x01);
      }
      if credentials.privProtocol.Some? {
        flags := Or(flags, 0x02);
      }
      OrOfFlags();
      flags := Or(flags, REPORTABLE);
    }

    /** Encrypt when a privacy protocol is set; only then is a salt drawn. */
    method Seal(scoped: bytes) returns (final: bytes, priv: bytes)
      requires Current().Ready()
      modifies this`salt
      ensures salt == if credentials.privProtocol.Some? then NextSalt(old(salt)) else old(salt)
      ensures (final, priv) == Sealed(Current(), salt, scoped)
    {
      hide Encrypted;
      if credentials.privProtocol.Some? {
        var s := DrawSalt();
        final, priv := Encrypt(suite, credentials.privProtocol.value, privKey.value, engine.boots, engine.time, s, scoped);
      } else {
        final, priv := scoped, [];
      }
    }

    /** Compute the MAC over the packet and copy it over the first window of zeros. */
    method Sign(packet: bytes) returns (signed: bytes)
      requires Current().Ready()
      ensures signed == if Current().Signs()
                        then Patched(packet, Current().MacSize(),
                                     Mac(suite, credentials.authProtocol.value, authKey.value, packet))
                        else packet
      ensures Current().Signs() ==>
                var size := match credentials.authProtocol.value case Md5 => 12 case Sha1 => 12 case Sha256 => 24;
                signed == Patched(packet, size, suite.hmac(credentials.authProtocol.value, authKey.value, packet)[..size])
    {
      signed := packet;
      if credentials.authProtocol.Some? && authKey.Some? {
        var mac := Mac(suite, credentials.authProtocol.value, authKey.value, packet);
        var pos := FindAuthPlaceholder(packet, MacLen(credentials.authProtocol.value));
        if pos.Some? {
          signed := packet[..pos.value] + mac + packet[pos.value + |mac|..];
        }
      }
    }

    /** Packet assembly, shared by `send_request` and `get_bulk`. */
    method BuildRequest(tag: byte, f1: i32, f2: i32, list: bytes) returns (packet: bytes)
      requires Current().Ready()
      modifies this`msgId, this`requestId, this`salt
      ensures msgId == NextId(old(msgId)) && requestId == NextId(old(requestId))
      ensures salt == if credentials.privProtocol.Some? then NextSalt(old(salt)) else old(salt)
      ensures packet == RequestPacket(Current(), msgId, salt, RequestScoped(Current(), tag, requestId, f1, f2, list))
    {
      hide Encrypted, UsmBytes, V3Bytes, PduContent, Sealed, ScopedBytes, NextId, NextSalt, Patched;
      var mid := NextMsgId();
      var rid := NextRequestId();
      var flags := MessageFlags();
      var scoped := EncodeScopedPdu(engine.engineId, [], tag, rid, f1, f2, list);
      var final, priv := Seal(scoped);
      var macSize := if credentials.authProtocol.Some? then MacLen(credentials.authProtocol.value) else 0;
      var params := EncodeUsmParams(Usm(engine.engineId, engine.boots, engine.time, credentials.username,
                                        Zeros(macSize), priv));
      packet := EncodeV3Message(Header(mid, MAX_SIZE, flags, USM_MODEL), params, final, credentials.privProtocol.Some?);
      assert packet == Assembled(Current(), msgId, salt, scoped, Zeros(Current().MacSize()));
      packet := Sign(packet);
    }

    /** The MAC check of a reply: zero the first window of zeros, then verify. */
    method CheckAuth(data: bytes, msg: V3Message) returns (ok: bool)
      requires suite.Sound()
      ensures ok == Authentic(Current(), data, msg)
    {
      if credentials.authProtocol.Some? && authKey.Some? && msg.usm.auth != [] {
        var verifyData := data;
        var pos := FindAuthPlaceholder(verifyData, |msg.usm.auth|);
        if pos.Some? {
          verifyData := verifyData[..pos.value] + Zeros(|msg.usm.auth|) + verifyData[pos.value + |msg.usm.auth|..];
        }
        ok := VerifyAuth(suite, credentials.authProtocol.value, authKey.value, verifyData, msg.usm.auth);
      } else {
        ok := true;
      }
    }

    method OpenReply(msg: V3Message) returns (r: Reply)
      requires Current().Ready()
      ensures r == ScopedReply(Current(), msg)
    {
      hide Decrypted, ScopedOf;
      var pdu := msg.scopedRaw;
      if msg.isEncrypted {
        if credentials.privProtocol.Some? && privKey.Some? {
          pdu :- Decrypt(suite, credentials.privProtocol.value, privKey.value, msg.usm.boots, msg.usm.time,
                         msg.usm.priv, msg.scopedRaw);
        } else {
          return Err(DecryptFailed);
        }
      }
      var scoped :- DecodeScopedPdu(pdu);
      if scoped.errorStatus != 0 {
        return Err(Snmp(scoped.errorStatus, scoped.errorIndex));
      }
      return Ok(scoped.varbinds);
    }

    /** One exchange; `checked` tells `send_request`, which verifies the reply's MAC, from `get_bulk`, which does not. */
    method Exchange(packet: bytes, checked: bool) returns (r: Reply)
      requires Current().Ready()
      modifies this`engine, network
      ensures network.sent == old(network.sent) + [packet] && network.inbox == Later(old(network.inbox))
      ensures engine == Synchronized(old(engine), First(old(network.inbox)))
      ensures var reply := First(old(network.inbox));
              && engine.engineId == old(engine.engineId)
              && (reply.Ok? && V3MessageOf(reply.value).Ok? ==>
                    var usm := V3MessageOf(reply.value).value.usm; engine.boots == usm.boots && engine.time == usm.time)
              && (!(reply.Ok? && V3MessageOf(reply.value).Ok?) ==> engine == old(engine))
      ensures r == Received(Current(), checked, First(old(network.inbox)))
    {
      hide V3MessageOf, ScopedReply, Authentic;
      var data :- network.Exchange(packet);
      var msg :- DecodeV3Message(data);
      engine := engine.(boots := msg.usm.boots, time := msg.usm.time);
      if checked {
        var ok := CheckAuth(data, msg);
        if !ok {
          return Err(AuthFailed);
        }
      }
      r := OpenReply(msg);
    }

    /** GET, GETNEXT and SET. */
    method SendRequest(tag: byte, list: bytes) returns (r: Reply)
      requires Current().Ready()
      modifies this`msgId, this`requestId, this`salt, this`engine, network
      ensures msgId == NextId(old(msgId)) && requestId == NextId(old(requestId))
      ensures salt == if credentials.privProtocol.Some? then NextSalt(old(salt)) else old(salt)
      ensures network.sent == old(network.sent)
                              + [RequestPacket(old(Current()), msgId, salt,
                                               RequestScoped(old(Current()), tag, requestId, 0, 0, list))]
      ensures network.inbox == Later(old(network.inbox))
      ensures engine == Synchronized(old(engine), First(old(network.inbox)))
      ensures r == Received(Current(), true, First(old(network.inbox)))
    {
      hide RequestPacket, RequestScoped, Received, Synchronized, NextId, NextSalt;
      var packet := BuildRequest(tag, 0, 0, list);
      r := Exchange(packet, true);
    }

    method Get(oids: seq<Oid>) returns (r: Reply)
      requires Current().Ready()
      modifies this`msgId, this`requestId, this`salt, this`engine, network
      ensures msgId == NextId(old(msgId)) && requestId == NextId(old(requestId))
      ensures salt == if credentials.privProtocol.Some? then NextSalt(old(salt)) else old(salt)
      ensures network.inbox == Later(old(network.inbox))
      ensures engine == Synchronized(old(engine), First(old(network.inbox)))
      ensures network.sent == old(network.sent)
                              + [RequestPacket(old(Current()), msgId, salt,
                                               RequestScoped(old(Current()), PDU_GET, requestId, 0, 0,
                                                             VarBindsBytes(NullVarBinds(oids), false)))]
      ensures r == Received(Current(), true, First(old(network.inbox)))
    {
      hide RequestPacket, RequestScoped, Received, Synchronized, NextId, NextSalt, VarBindsBytes, Suite.Sound;
      var list := EncodeVarBindListNull(oids);
      r := SendRequest(PDU_GET, list);
    }

    method GetNext(oids: seq<Oid>) returns (r: Reply)
      requires Current().Ready()
      modifies this`msgId, this`requestId, this`salt, this`engine, network
      ensures msgId == NextId(old(msgId)) && requestId == NextId(old(requestId))
      ensures salt == if credentials.privProtocol.Some? then NextSalt(old(salt)) else old(salt)
      ensures network.inbox == Later(old(network.inbox))
      ensures engine == Synchronized(old(engine), First(old(network.inbox)))
      ensures network.sent == old(network.sent)
                              + [RequestPacket(old(Current()), msgId, salt,
                                               RequestScoped(old(Current()), PDU_GETNEXT, requestId, 0, 0,
                                                             VarBindsBytes(NullVarBinds(oids), false)))]
      ensures r == Received(Current(), true, First(old(network.inbox)))
    {
      hide RequestPacket, RequestScoped, Received, Synchronized, NextId, NextSalt, VarBindsBytes, Suite.Sound;
      var list := EncodeVarBindListNull(oids);
      r := SendRequest(PDU_GETNEXT, list);
    }

    method GetBulk(oids: seq<Oid>, nonRepeaters: i32, maxRepetitions: i32) returns (r: Reply)
      requires Current().Ready()
      modifies this`msgId, this`requestId, this`salt, this`engine, network
      ensures msgId == NextId(old(msgId)) && requestId == NextId(old(requestId))
      ensures salt == if credentials.privProtocol.Some? then NextSalt(old(salt)) else old(salt)
      ensures network.sent == old(network.sent)
                              + [RequestPacket(old(Current()), msgId, salt,
                                               RequestScoped(old(Current()), PDU_GETBULK, requestId, nonRepeaters, maxRepetitions,
                                                             VarBindsBytes(NullVarBinds(oids), false)))]
      ensures network.inbox == Later(old(network.inbox))
      ensures engine == Synchronized(old(engine), First(old(network.inbox)))
      ensures r == Received(Current(), false, First(old(network.inbox)))
    {
      hide RequestPacket, RequestScoped, Received, Synchronized, NextId, NextSalt, VarBindsBytes, Suite.Sound;
      var list := EncodeVarBindListNull(oids);
      var packet := BuildRequest(PDU_GETBULK, nonRepeaters, maxRepetitions, list);
      r := Exchange(packet, false);
    }

    method Set(varbinds: seq<VarBind>) returns (r: Reply)
      requires Current().Ready()
      modifies this`msgId, this`requestId, this`salt, this`engine, network
      ensures msgId == NextId(old(msgId)) && requestId == NextId(old(requestId))
      ensures salt == if credentials.privProtocol.Some? then NextSalt(old(salt)) else old(salt)
      ensures network.inbox == Later(old(network.inbox))
      ensures engine == Synchronized(old(engine), First(old(network.inbox)))
      ensures network.sent == old(network.sent)
                              + [RequestPacket(old(Current()), msgId, salt,
                                               RequestScoped(old(Current()), PDU_SET, requestId, 0, 0,
                                                             VarBindsBytes(varbinds, false)))]
      ensures r == Received(Current(), true, First(old(network.inbox)))
    {
      hide RequestPacket, RequestScoped, Received, Synchronized, NextId, NextSalt, VarBindsBytes, Suite.Sound;
      var list := EncodeVarBindList(varbinds);
      r := SendRequest(PDU_SET, list);
    }

    ghost function Counted(): Counters
      reads this
    {
      Counters(msgId, requestId, salt)
    }

    /** One request of a walk, the `n`th after the state described by `start`, `first` and `inbox`. */
    method AskBeyond(oid: Oid, ghost start: Session, ghost first: Counters, ghost inbox: seq<Result<bytes>>, ghost n: nat)
      returns (r: Reply)
      requires start.Ready() && n <= |inbox| && network.inbox == inbox[n..]
      requires Current() == SessionAfter(start, inbox[..n]) && Counted() == CountersAfter(start, first, n)
      modifies this`msgId, this`requestId, this`salt, this`engine, network
      ensures r == FirstReply(ReceivedAll(start, inbox[n..]))
      ensures LaterReplies(ReceivedAll(start, inbox[n..])) == ReceivedAll(start, network.inbox)
      ensures network.sent == old(network.sent)
                              + [AskPacket(SessionAfter(start, inbox[..n]), CountersAfter(start, first, n + 1), oid)]
      ensures Counted() == CountersAfter(start, first, n + 1)
      ensures var k := if n < |inbox| then n + 1 else n;
              network.inbox == inbox[k..] && Current() == SessionAfter(start, inbox[..k])
      ensures n == |inbox| ==> r.Err?
    {
      hide Received, ReceivedAll, FirstReply, LaterReplies, NextId, NextSalt, RequestPacket, RequestScoped, Synchronized,
        Suite.Sound, SessionAfter, VarBindsBytes;
      if n < |inbox| {
        SessionStep(start, inbox, n);
      } else {
        assert inbox[n..] == [];
        SilenceIsTimeout(Current());
      }
      r := GetBulk([oid], 0, MAX_REPETITIONS);
      ReceivedInStep(start, Current(), inbox[n..]);
    }

    /**
     The same loop as the v1/v2c walk, over authenticated and encrypted exchanges: replies are consumed as
     `Outcome` says, the identifiers `Requests` lists are asked for, each in the packet of its own that session
     and counters call for, and nothing else is sent.
     */
    method WalkSubtree(root: Oid) returns (r: Reply)
      requires Current().Ready()
      modifies this`msgId, this`requestId, this`salt, this`engine, network
      ensures r == Outcome(root, ReceivedAll(old(Current()), old(network.inbox)))
      ensures var start, inbox := old(Current()), old(network.inbox);
              var asked := Requests(root, root, ReceivedAll(start, inbox));
              var n := if |asked| <= |inbox| then |asked| else |inbox|;
              && network.sent == old(network.sent) + AskPackets(start, old(Counted()), asked, inbox)
              && Counted() == CountersAfter(start, old(Counted()), |asked|)
              && network.inbox == inbox[n..]
              && Current() == SessionAfter(start, inbox[..n])
    {
      hide Outcome, Requests, Received, ReceivedAll, FirstReply, LaterReplies, Taken, Last, Following, Session.Ready,
        SessionAfter, CountersAfter, AskPackets, AskPacket;
      ghost var start, first, inbox := Current(), Counted(), network.inbox;
      ghost var replies := ReceivedAll(start, inbox);
      ghost var asked: seq<Oid> := [];
      var results: seq<VarBind> := [];
      var current := root;
      FollowingNothing(Outcome(root, replies));
      NothingAsked(start, first, inbox);
      while true
        invariant |asked| <= |inbox| && network.inbox == inbox[|asked|..]
        invariant Current() == SessionAfter(start, inbox[..|asked|]) && Counted() == CountersAfter(start, first, |asked|)
        invariant Outcome(root, replies) == Following(results, Outcome(root, ReceivedAll(start, network.inbox)))
        invariant Requests(root, root, replies) == asked + Requests(root, current, ReceivedAll(start, network.inbox))
        invariant network.sent == old(network.sent) + AskPackets(start, first, asked, inbox)
        decreases |network.inbox|
      {
        ghost var now := ReceivedAll(start, network.inbox);
        Round(root, current, now);
        FollowingEnds(results, Outcome(root, now));
        AskPacketsAppend(start, first, asked, current, inbox);
        var reply := AskBeyond(current, start, first, inbox, |asked|);
        asked := asked + [current];
        var varbinds :- reply;
        if varbinds == [] {
          return Ok(results);
        }
        FollowingMore(results, varbinds, Outcome(root, ReceivedAll(start, network.inbox)));
        var done;
        current, results, done := Collect(root, varbinds, current, results);
        if done {
          return Ok(results);
        }
      }
    }
  }

  lemma NothingAsked(s: Session, c: Counters, inbox: seq<Result<bytes>>)
    requires s.Ready()
    ensures AskPackets(s, c, [], inbox) == [] && CountersAfter(s, c, 0) == c
    ensures SessionAfter(s, inbox[..0]) == s && inbox[0..] == inbox
  {
  }

  lemma SilenceIsTimeout(s: Session)
    requires s.Ready()
    ensures Received(s, false, First([])) == Err(Timeout)
    ensures Synchronized(s.engine, First([])) == s.engine
  {
    hide V3MessageOf;
  }

  /** The bits of msgFlags are set independently. */
  lemma OrOfFlags()
    ensures Or(0, 1) == 1 && Or(0, 2) == 2 && Or(1, 2) == 3
    ensures Or(0, 4) == 4 && Or(1, 4) == 5 && Or(2, 4) == 6 && Or(3, 4) == 7
  {
    assert Pow2(8) == 256 && Pow2(7) == 128 && Pow2(6) == 64;
    BitOrNothing(1, 8);
    BitOrNothing(2, 8);
    BitOrNothing(4, 8);
    BitOrNothing(1, 7);
    BitOrNothing(2, 7);
    BitOrNothing(1, 6);
    assert BitOr(1, 2, 7) == 2 * BitOr(0, 1, 6) + 1;
  }

  lemma {:induction false} BitOrNothing(b: nat, width: nat)
    requires b < Pow2(width)
    ensures BitOr(0, b, width) == b
  {
    if width > 0 {
      BitOrNothing(b / 2, width - 1);
    }
  }
}
