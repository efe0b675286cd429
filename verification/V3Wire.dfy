/** The v3 walk and its agent, joined by nothing but signed and encrypted octets. */
module V3Wire {
  import opened Octets
  import opened Results
  import opened Types
  import opened Integers
  import opened Oids
  import opened BerSpec
  import opened BerFacts
  import opened Ber
  import opened Messages
  import opened V3Messages
  import opened Placeholder
  import opened Crypto
  import opened Freshness
  import opened Walk
  import opened Agent
  import opened V3Session
  import opened V3Client

  // ---- What the agent reads ----

  /**
   Section 6.3.2 of RFC 3414: the MAC is that of the message with its authentication parameters replaced by zeros.
   The agent knows engine identifier, user name and keys of the session, not the client's idea of boots and time.
   */
  predicate Genuine(s: Session, msg: V3Message)
    requires s.suite.Sound()
  {
    && msg.usm.engineId == s.engine.engineId && msg.usm.username == s.credentials.username
    && (s.Signs() ==>
          && |msg.usm.auth| == s.MacSize()
          && msg.usm.auth == MacOf(s, V3Bytes(msg.header, UsmBytes(msg.usm.(auth := Zeros(s.MacSize()))),
                                              Body(msg.scopedRaw, msg.isEncrypted))))
  }

  /** Decode, authenticate, decrypt, parse. */
  function V3QueryOf(s: Session, data: bytes): Result<Query>
    requires s.Ready()
  {
    var msg :- V3MessageOf(data);
    :- Need(Genuine(s, msg), AuthFailed);
    var pdu :- Opened(s, msg);
    var scoped :- ScopedOf(pdu);
    Ok(Query(V3, scoped.pduType, scoped.requestId, scoped.errorStatus, scoped.errorIndex, scoped.varbinds))
  }

  /** The client's view of boots and time is not the agent's concern: keys, names and message decide. */
  lemma KeysDecide(s: Session, t: Session, msg: V3Message)
    requires s.Ready() && t == s.(engine := t.engine) && t.engine.engineId == s.engine.engineId
    ensures Genuine(s, msg) == Genuine(t, msg) && Opened(s, msg) == Opened(t, msg)
  {
    hide Decrypted, V3Bytes, UsmBytes, Body, Mac;
  }

  lemma RequestIsGenuine(s: Session, msgId: i32, salt: u64, scoped: bytes)
    requires s.Ready()
    ensures Genuine(s, RequestMessage(s, msgId, salt, scoped))
  {
    hide V3Bytes, UsmBytes, Body, Encrypted, Sealed, Mac;
    var msg := RequestMessage(s, msgId, salt, scoped);
    if s.Signs() {
      assert msg.usm.(auth := Zeros(s.MacSize())) == RequestUsm(s, Zeros(s.MacSize()), Sealed(s, salt, scoped).1);
    }
  }

  /**
   An agent accepts a request exactly when it signs in place, and then reads what was asked. The packets of names
   that can be mistaken it refuses: they do not decode, or name another engine or user.
   */
  lemma RequestAccepted(s: Session, t: Session, msgId: i32, salt: u64, tag: byte, requestId: i32, f1: i32, f2: i32,
                        vbs: seq<VarBind>)
    requires s.Ready() && t == s.(engine := t.engine) && t.engine.engineId == s.engine.engineId
    requires var scoped := RequestScoped(t, tag, requestId, f1, f2, VarBindsBytes(vbs, false));
             |RequestContent(t, msgId, salt, scoped)| < LENGTH_LIMIT
    ensures var scoped := RequestScoped(t, tag, requestId, f1, f2, VarBindsBytes(vbs, false));
            var query := V3QueryOf(s, RequestPacket(t, msgId, salt, scoped));
            && (query.Ok? <==> SignsInPlace(t, msgId, salt, scoped))
            && (query.Ok? ==> query == Ok(Query(V3, tag, requestId, ToU32(f1), ToU32(f2), VarBindsOnWire(vbs, false))))
  {
    hide V3MessageOf, ScopedOf, RequestScoped, RequestPacket, RequestContent, RequestMessage, SignsInPlace, Opened,
      VarBindsBytes, VarBindsOnWire, MacOf, V3Bytes, UsmBytes, Body;
    var scoped := RequestScoped(t, tag, requestId, f1, f2, VarBindsBytes(vbs, false));
    if SignsInPlace(t, msgId, salt, scoped) {
      var msg := RequestMessage(t, msgId, salt, scoped);
      RequestDelivered(t, msgId, salt, tag, requestId, f1, f2, vbs, false);
      RequestIsGenuine(t, msgId, salt, scoped);
      KeysDecide(s, t, msg);
    } else {
      MispatchedNames(t, msgId, salt, scoped);
    }
  }

  // ---- What the client reads ----

  /** Within the codec's limits and encrypted only if the session can decrypt: header, names, MAC and context are free. */
  ghost predicate Fits(s: Session, d: PeerMessage)
    requires s.Ready()
  {
    && |d.Content(s)| < LENGTH_LIMIT
    && (d.Flagged() ==> s.credentials.privProtocol.Some?)
    && forall vb :: vb in d.varbinds ==> Faithful(vb, true)
  }

  lemma PeerIsReceived(s: Session, d: PeerMessage)
    requires s.Ready() && Fits(s, d)
    ensures Received(s, false, Ok(d.Octets(s))) == d.Meaning()
  {
    hide PeerMessage.Content, PeerMessage.Octets, PeerMessage.Flagged, Received, Faithful, VarBindsOnWire, MacOf;
    MessageReceived(s, false, d);
    FaithfulOnWire(d.varbinds, true);
  }

  function V3Sending(s: Session, ds: seq<PeerMessage>): (inbox: seq<Result<bytes>>)
    requires s.Ready()
    ensures |inbox| == |ds|
  {
    seq(|ds|, i requires 0 <= i < |ds| => Ok(ds[i].Octets(s)))
  }

  function V3Meanings(ds: seq<PeerMessage>): (replies: seq<Reply>)
    ensures |replies| == |ds|
  {
    seq(|ds|, i requires 0 <= i < |ds| => ds[i].Meaning())
  }

  lemma V3SendingIsReceived(s: Session, ds: seq<PeerMessage>)
    requires s.Ready()
    requires forall i :: 0 <= i < |ds| ==> Fits(s, ds[i])
    ensures ReceivedAll(s, V3Sending(s, ds)) == V3Meanings(ds)
  {
    hide Received, PeerMessage.Octets, Fits, PeerMessage.Meaning;
    forall i | 0 <= i < |ds|
      ensures ReceivedAll(s, V3Sending(s, ds))[i] == V3Meanings(ds)[i]
    {
      PeerIsReceived(s, ds[i]);
    }
  }

  // ---- The closed loop ----

  /** Within the codec's limits, whatever counters and engine state. */
  ghost predicate V3Askable(s: Session, oid: Oid)
    requires s.Ready()
  {
    forall e: Engine, c: Counters :: e.engineId == s.engine.engineId ==>
      var t := s.(engine := e);
      |RequestContent(t, c.msgId, c.salt, AskScoped(t, c.requestId, oid))| < LENGTH_LIMIT
  }

  /** The packet asking for `oid` carries its MAC where it belongs. */
  ghost predicate AskInPlace(s: Session, c: Counters, oid: Oid)
    requires s.Ready()
  {
    SignsInPlace(s, c.msgId, c.salt, AskScoped(s, c.requestId, oid))
  }

  /** Every packet of the walk does. */
  ghost predicate WalkInPlace(s: Session, c: Counters, asked: seq<Oid>, inbox: seq<Result<bytes>>)
    requires s.Ready() && |asked| <= |inbox| + 1
  {
    forall i :: 0 <= i < |asked| ==> AskInPlace(SessionAfter(s, inbox[..i]), CountersAfter(s, c, i + 1), asked[i])
  }

  /** Engine state has no part in whether names can be mistaken. */
  lemma NamesStay(s: Session, t: Session)
    requires t == s.(engine := t.engine) && t.engine.engineId == s.engine.engineId
    ensures Unmistakable(s) == Unmistakable(t)
  {
    hide Unambiguous;
    NamesDecide(RequestUsm(s, [], []), RequestUsm(t, [], []), s.MacSize());
  }

  /** With unmistakable names every walk's packets do, whatever the agent replies. */
  lemma UnmistakableInPlace(s: Session, c: Counters, asked: seq<Oid>, inbox: seq<Result<bytes>>)
    requires s.Ready() && |asked| <= |inbox| + 1 && Unmistakable(s)
    ensures WalkInPlace(s, c, asked, inbox)
  {
    hide Unmistakable, SessionAfter, AskScoped, RequestAuth;
    forall i | 0 <= i < |asked|
      ensures AskInPlace(SessionAfter(s, inbox[..i]), CountersAfter(s, c, i + 1), asked[i])
    {
      NamesStay(s, SessionAfter(s, inbox[..i]));
    }
  }

  /** A packet of the walk is accepted exactly when it carries its MAC in place. */
  lemma AskRead(s: Session, t: Session, c: Counters, oid: Oid)
    requires s.Ready() && t == s.(engine := t.engine) && t.engine.engineId == s.engine.engineId
    requires V3Askable(s, oid)
    ensures V3QueryOf(s, AskPacket(t, c, oid)).Ok? <==> AskInPlace(t, c, oid)
    ensures AskInPlace(t, c, oid) ==>
              V3QueryOf(s, AskPacket(t, c, oid))
              == Ok(Query(V3, PDU_GETBULK, c.requestId, 0, MAX_REPETITIONS, [VarBind(OnWire(oid), Null)]))
  {
    hide V3QueryOf, RequestPacket, RequestContent, RequestScoped, SignsInPlace, OnWire, VarBindsBytes, VarBindsOnWire;
    assert s.(engine := t.engine) == t;
    assert |RequestContent(t, c.msgId, c.salt, AskScoped(t, c.requestId, oid))| < LENGTH_LIMIT;
    RequestAccepted(s, t, c.msgId, c.salt, PDU_GETBULK, c.requestId, 0, MAX_REPETITIONS, NullVarBinds([oid]));
    OneNull(oid);
  }

  /** The agent serves its MIB to every packet of the walk as it reads it; what it replies arrives in `ds`. */
  ghost predicate V3Served(s: Session, c: Counters, m: seq<VarBind>, root: Oid, ds: seq<PeerMessage>)
    requires s.Ready()
  {
    var inbox := V3Sending(s, ds);
    var packets := AskPackets(s, c, Requests(root, root, ReceivedAll(s, inbox)), inbox);
    forall i :: 0 <= i < |packets| && i < |ds| ==> Serves(m, V3QueryOf(s, packets[i]), ds[i].Meaning())
  }

  /** Every packet of that walk carries its MAC in place: the packets that `RequestAccepted` says are not refused. */
  ghost predicate V3InPlace(s: Session, c: Counters, root: Oid, ds: seq<PeerMessage>)
    requires s.Ready()
  {
    var inbox := V3Sending(s, ds);
    WalkInPlace(s, c, Requests(root, root, ReceivedAll(s, inbox)), inbox)
  }

  lemma V3ServedIsLegal(s: Session, t: Session, c: Counters, m: seq<VarBind>, oid: Oid, reply: Reply)
    requires s.Ready() && t == s.(engine := t.engine) && t.engine.engineId == s.engine.engineId
    requires V3Askable(s, oid) && AskInPlace(t, c, oid)
    requires Serves(m, V3QueryOf(s, AskPacket(t, c, oid)), reply)
    ensures Legal(Bulk, m, OnWire(oid), reply)
  {
    hide V3QueryOf, AskPacket, OnWire, V3Askable, AskInPlace, BulkReply, NextReply;
    AskRead(s, t, c, oid);
  }

  lemma V3MeaningIsFaithful(s: Session, d: PeerMessage)
    requires s.Ready() && Fits(s, d) && d.Meaning().Ok?
    ensures forall vb :: vb in d.Meaning().value ==> Encodable(vb.oid)
  {
    hide Encodable, PeerMessage.Content;
  }

  lemma {:induction false} V3ServedAt(s: Session, c: Counters, m: seq<VarBind>, root: Oid, ds: seq<PeerMessage>, k: nat)
    requires s.Ready() && V3Served(s, c, m, root, ds) && V3InPlace(s, c, root, ds)
    requires V3Askable(s, root)
    requires forall i :: 0 <= i < |m| ==> V3Askable(s, m[i].oid)
    requires forall i :: 0 <= i < |ds| ==> Fits(s, ds[i])
    requires k < |Requests(root, root, V3Meanings(ds))| && k < |ds|
    ensures |Requests(root, OnWire(root), V3Meanings(ds))| == |Requests(root, root, V3Meanings(ds))|
    ensures Legal(Bulk, m, Requests(root, OnWire(root), V3Meanings(ds))[k], V3Meanings(ds)[k])
    decreases k
  {
    hide Requests, AskPacket, V3QueryOf, V3Askable, OnWire, Encodable, Legal, Received, ReceivedAll, Serves, Fits, SessionAfter,
      CountersAfter, PeerMessage.Meaning, PeerMessage.Octets, AskInPlace;
    var replies, inbox := V3Meanings(ds), V3Sending(s, ds);
    var asked := Requests(root, root, replies);
    V3SendingIsReceived(s, ds);
    if k > 0 {
      V3ServedAt(s, c, m, root, ds, k - 1);
      AskedIsEntry(Bulk, m, root, OnWire(root), replies, k);
      FirstStandsApart(root, root, OnWire(root), replies);
      assert asked[k] == asked[1..][k - 1] == Requests(root, OnWire(root), replies)[k];
      V3MeaningIsFaithful(s, ds[k - 1]);
    }
    var packets := AskPackets(s, c, asked, inbox);
    assert Serves(m, V3QueryOf(s, packets[k]), ds[k].Meaning());
    assert AskInPlace(SessionAfter(s, inbox[..k]), CountersAfter(s, c, k + 1), asked[k]);
    V3ServedIsLegal(s, SessionAfter(s, inbox[..k]), CountersAfter(s, c, k + 1), m, asked[k], replies[k]);
    SeenRequest(root, replies, k);
  }

  /**
   The closed loop, down to signed and encrypted octets: the agent sees nothing but the packets that
   `WalkSubtree` sends and authenticates each; the client sees nothing but its replies. The walk gives what
   lies ahead of the root as it arrives and, for walkable roots, exactly the subtree. Packets must carry their
   MACs in place, which unmistakable names guarantee; what becomes of the others `RefusedWalk` says.
   */
  lemma V3WireWalkIsExact(s: Session, c: Counters, m: seq<VarBind>, root: Oid, ds: seq<PeerMessage>)
    requires s.Ready() && V3InPlace(s, c, root, ds)
    requires IsMib(m) && |ds| > |Pending(m, root, OnWire(root))|
    requires V3Askable(s, root)
    requires forall i :: 0 <= i < |m| ==> V3Askable(s, m[i].oid)
    requires forall i :: 0 <= i < |ds| ==> Fits(s, ds[i])
    requires V3Served(s, c, m, root, ds)
    ensures var outcome := Outcome(root, ReceivedAll(s, V3Sending(s, ds)));
            && outcome == Ok(Pending(m, root, OnWire(root)))
            && (IsFaithfulMib(m) && Walkable(Bulk, root) ==> outcome == Ok(Subtree(m, root)))
  {
    hide IsMib, Pending, Requests, V3Askable, OnWire, Legal, V3Served, V3InPlace, Outcome, Walkable, IsFaithfulMib,
      ReceivedAll, Subtree, PeerMessage.Meaning, Fits;
    var replies := V3Meanings(ds);
    V3SendingIsReceived(s, ds);
    forall k | 0 <= k < |Requests(root, OnWire(root), replies)| && k < |replies|
      ensures Legal(Bulk, m, Requests(root, OnWire(root), replies)[k], replies[k])
    {
      FirstStandsApart(root, root, OnWire(root), replies);
      V3ServedAt(s, c, m, root, ds, k);
    }
    WalkFrom(Bulk, m, root, OnWire(root), replies);
    if IsFaithfulMib(m) && Walkable(Bulk, root) {
      WalkableIsExact(Bulk, m, root);
    }
  }

  // ---- The walk of a session that is refused ----

  const PDU_REPORT: byte := 0xA8

  const USM_STATS: Oid := [1, 3, 6, 1, 6, 3, 15, 1, 1]

  /** How an agent answers what it refuses (section 3.2 of RFC 3414): one counter of its statistics. */
  predicate IsReport(d: PeerMessage) {
    && d.tag == PDU_REPORT && d.status == 0 && |d.varbinds| == 1
    && Under(USM_STATS, d.varbinds[0].oid) && d.varbinds[0].value.Counter32?
  }

  /**
   If the first packet does not carry its MAC in place, the agent refuses it; its report, unless the root holds
   the agent's statistics, ends the walk, and the caller gets an empty subtree instead of an error.
   */
  lemma RefusedWalk(s: Session, c: Counters, root: Oid, ds: seq<PeerMessage>)
    requires s.Ready() && V3Askable(s, root) && ds != []
    requires Fits(s, ds[0]) && IsReport(ds[0]) && !Under(root, ds[0].varbinds[0].oid)
    ensures var inbox := V3Sending(s, ds);
            var asked := Requests(root, root, ReceivedAll(s, inbox));
            && asked == [root]
            && (V3QueryOf(s, AskPackets(s, c, asked, inbox)[0]).Err? <==> !AskInPlace(s, CountersAfter(s, c, 1), root))
            && Outcome(root, ReceivedAll(s, inbox)) == Ok([])
  {
    hide Received, V3QueryOf, AskPacket, AskInPlace, V3Askable, Fits, PeerMessage.Octets, CountersAfter, Under;
    PeerIsReceived(s, ds[0]);
    var inbox := V3Sending(s, ds);
    assert ds[0].varbinds == [ds[0].varbinds[0]];
    assert ReceivedAll(s, inbox)[0] == Received(s, false, Ok(ds[0].Octets(s))) == Ok(ds[0].varbinds);
    SingleReply(root, root, ds[0].varbinds[0]);
    assert inbox[..0] == [];
    AskRead(s, s, CountersAfter(s, c, 1), root);
  }

  // ---- Initialization vectors over a run ----

  /** One request of a session, of whatever kind: the engine state it was built in, its message id and scoped PDU. */
  datatype Sent = Sent(engine: Engine, msgId: i32, scoped: bytes)

  /** The session as it was at the `i`th request of a run. */
  function SenderOf(s: Session, run: seq<Sent>, i: nat): Session
    requires i < |run|
  {
    s.(engine := run[i].engine)
  }

  /** All packets of a run: GET, GETNEXT, SET and GETBULK in any order, each under the next salt. */
  function RunPackets(s: Session, salt: u64, run: seq<Sent>): (ps: seq<bytes>)
    requires s.Ready()
    ensures |ps| == |run|
  {
    seq(|run|, i requires 0 <= i < |run| =>
      RequestPacket(SenderOf(s, run, i), run[i].msgId, SaltAfter(salt, i + 1), run[i].scoped))
  }

  /** Every method that sends one request, under the salt it drew, makes a run of a run. */
  lemma RunGrows(s: Session, salt: u64, run: seq<Sent>, t: Session, msgId: i32, scoped: bytes)
    requires s.Ready() && t == s.(engine := t.engine)
    ensures SaltAfter(salt, |run| + 1) == NextSalt(SaltAfter(salt, |run|))
    ensures RunPackets(s, salt, run + [Sent(t.engine, msgId, scoped)])
         == RunPackets(s, salt, run) + [RequestPacket(t, msgId, SaltAfter(salt, |run| + 1), scoped)]
  {
    hide RequestPacket, NextSalt;
    var more := run + [Sent(t.engine, msgId, scoped)];
    assert SenderOf(s, more, |run|) == t;
    forall i | 0 <= i < |run|
      ensures RunPackets(s, salt, more)[i] == RunPackets(s, salt, run)[i]
    {
      assert SenderOf(s, more, i) == SenderOf(s, run, i);
    }
  }

  /** The requests of a walk as part of a run. */
  function WalkRun(s: Session, c: Counters, asked: seq<Oid>, inbox: seq<Result<bytes>>): (run: seq<Sent>)
    requires |asked| <= |inbox| + 1
    ensures |run| == |asked|
  {
    seq(|asked|, i requires 0 <= i < |asked| =>
      var t, d := SessionAfter(s, inbox[..i]), CountersAfter(s, c, i + 1);
      Sent(t.engine, d.msgId, AskScoped(t, d.requestId, asked[i])))
  }

  /** A walk is a run. */
  lemma WalkIsRun(s: Session, c: Counters, asked: seq<Oid>, inbox: seq<Result<bytes>>)
    requires s.Ready() && s.credentials.privProtocol.Some? && |asked| <= |inbox| + 1
    ensures AskPackets(s, c, asked, inbox) == RunPackets(s, c.salt, WalkRun(s, c, asked, inbox))
  {
    hide RequestPacket, RequestScoped, SaltAfter, IdAfter;
    var run := WalkRun(s, c, asked, inbox);
    forall i | 0 <= i < |asked|
      ensures AskPackets(s, c, asked, inbox)[i] == RunPackets(s, c.salt, run)[i]
    {
      var t := SessionAfter(s, inbox[..i]);
      assert SenderOf(s, run, i) == t;
      assert t.engine.engineId == s.engine.engineId;
    }
  }

  /** After how many draws of a salt a vector may come back. */
  function Span(p: PrivProtocol): nat {
    match p
    case Des => 0x1_0000_0000
    case Aes128 => 0x1_0000_0000_0000_0000
  }

  /**
   Two requests of a run are encrypted under one vector exactly when boots agree, under AES also time, and a
   multiple of the span of salts lies between them. Names play no part.
   */
  lemma RunVectorsRepeat(s: Session, salt: u64, run: seq<Sent>, i: nat, j: nat)
    requires s.Ready() && s.credentials.privProtocol.Some? && i < |run| && j < |run|
    ensures var p := s.credentials.privProtocol.value;
            VectorUsed(SenderOf(s, run, i), SaltAfter(salt, i + 1)) == VectorUsed(SenderOf(s, run, j), SaltAfter(salt, j + 1))
            <==> run[i].engine.boots == run[j].engine.boots && (p.Aes128? ==> run[i].engine.time == run[j].engine.time)
                 && (i - j) % Span(p) == 0
  {
    hide DesIv, AesIv, DesParams, BeBytes, SaltAfter;
    var e, f := run[i].engine, run[j].engine;
    match s.credentials.privProtocol.value
    case Des => DesIvsRepeat(s.privKey.value, salt, i + 1, j + 1, e.boots, f.boots);
    case Aes128 => AesIvsRepeat(salt, i + 1, j + 1, e.boots, e.time, f.boots, f.time);
  }

  lemma NoMultiple(d: nat, n: nat)
    requires 0 < d < n
    ensures d % n != 0
  {
  }

  /** So within the span no two packets of a run share a vector, whatever boots and time do. */
  lemma RunVectorsDiffer(s: Session, salt: u64, run: seq<Sent>, i: nat, j: nat)
    requires s.Ready() && s.credentials.privProtocol.Some? && i < j < |run|
    requires j - i < Span(s.credentials.privProtocol.value)
    ensures VectorUsed(SenderOf(s, run, i), SaltAfter(salt, i + 1)) != VectorUsed(SenderOf(s, run, j), SaltAfter(salt, j + 1))
  {
    hide VectorUsed, SaltAfter;
    NoMultiple(j - i, Span(s.credentials.privProtocol.value));
    RunVectorsRepeat(s, salt, run, j, i);
  }

  /** The vector that a receiver derives from a packet, if there is one. */
  function VectorOf(s: Session, packet: bytes): Option<bytes>
    requires s.Ready()
  {
    var r := V3MessageOf(packet);
    if r.Err? || s.credentials.privProtocol.None? || |r.value.usm.priv| != 8 then None
    else
      var usm := r.value.usm;
      match s.credentials.privProtocol.value
      case Des => Some(DesIv(s.privKey.value, usm.priv))
      case Aes128 => Some(AesIv(usm.boots, usm.time, usm.priv))
  }

  /** A receiver derives the vector that was used, even of packets that it refuses, as long as their names are fenced. */
  lemma VectorArrives(s: Session, t: Session, msgId: i32, salt: u64, tag: byte, requestId: i32, f1: i32, f2: i32,
                      vbs: seq<VarBind>)
    requires s.Ready() && s.credentials.privProtocol.Some? && t == s.(engine := t.engine)
    requires var scoped := RequestScoped(t, tag, requestId, f1, f2, VarBindsBytes(vbs, false));
             && |RequestContent(t, msgId, salt, scoped)| < LENGTH_LIMIT
             && (SignsInPlace(t, msgId, salt, scoped)
                 || (Fenced(t.engine.engineId) && Fenced(t.credentials.username)))
    ensures var scoped := RequestScoped(t, tag, requestId, f1, f2, VarBindsBytes(vbs, false));
            VectorOf(s, RequestPacket(t, msgId, salt, scoped)) == Some(VectorUsed(t, salt))
  {
    hide V3MessageOf, ScopedOf, Opened, RequestPacket, RequestContent, UsmBytes, RequestAuth, PduContent, RequestMac,
      VarBindsBytes, VarBindsOnWire, DesIv, AesIv, SignsInPlace, Fenced, Patched, HasRun;
    var list := VarBindsBytes(vbs, false);
    var scoped := RequestScoped(t, tag, requestId, f1, f2, list);
    if SignsInPlace(t, msgId, salt, scoped) {
      RequestDelivered(t, msgId, salt, tag, requestId, f1, f2, vbs, false);
    } else {
      NoSignatureIsInPlace(t, msgId, salt, scoped);
      MispatchedArrives(t, msgId, salt, tag, PduContent(requestId, f1, f2, list));
    }
  }

  /** On the wire: a receiver derives different vectors from any two packets of a walk. */
  lemma WalkVectorsDiffer(s: Session, c: Counters, asked: seq<Oid>, inbox: seq<Result<bytes>>, i: nat, j: nat)
    requires s.Ready() && s.credentials.privProtocol.Some? && |asked| <= |inbox| + 1 && i < j < |asked|
    requires WalkInPlace(s, c, asked, inbox) || (Fenced(s.engine.engineId) && Fenced(s.credentials.username))
    requires forall k :: 0 <= k < |asked| ==> V3Askable(s, asked[k])
    requires j - i < Span(s.credentials.privProtocol.value)
    ensures var packets := AskPackets(s, c, asked, inbox);
            VectorOf(s, packets[i]).Some? && VectorOf(s, packets[i]) != VectorOf(s, packets[j])
  {
    hide VectorOf, VectorUsed, AskPacket, AskInPlace, V3Askable, Fenced, SessionAfter, CountersAfter, AskScoped;
    AskVector(s, SessionAfter(s, inbox[..i]), CountersAfter(s, c, i + 1), asked[i]);
    AskVector(s, SessionAfter(s, inbox[..j]), CountersAfter(s, c, j + 1), asked[j]);
    var run := WalkRun(s, c, asked, inbox);
    SaltsOfWalk(s, c, i + 1);
    SaltsOfWalk(s, c, j + 1);
    assert SenderOf(s, run, i) == SessionAfter(s, inbox[..i]) && SenderOf(s, run, j) == SessionAfter(s, inbox[..j]);
    RunVectorsDiffer(s, c.salt, run, i, j);
  }

  lemma SaltsOfWalk(s: Session, c: Counters, n: nat)
    requires s.credentials.privProtocol.Some?
    ensures CountersAfter(s, c, n).salt == SaltAfter(c.salt, n)
  {
  }

  lemma AskVector(s: Session, t: Session, c: Counters, oid: Oid)
    requires s.Ready() && s.credentials.privProtocol.Some? && V3Askable(s, oid)
    requires t == s.(engine := t.engine) && t.engine.engineId == s.engine.engineId
    requires AskInPlace(t, c, oid) || (Fenced(t.engine.engineId) && Fenced(t.credentials.username))
    ensures VectorOf(s, AskPacket(t, c, oid)) == Some(VectorUsed(t, c.salt))
  {
    hide VectorOf, VectorUsed, RequestPacket, RequestContent, RequestScoped, SignsInPlace, Fenced, VarBindsBytes;
    assert s.(engine := t.engine) == t;
    assert |RequestContent(t, c.msgId, c.salt, AskScoped(t, c.requestId, oid))| < LENGTH_LIMIT;
    VectorArrives(s, t, c.msgId, c.salt, PDU_GETBULK, c.requestId, 0, MAX_REPETITIONS, NullVarBinds([oid]));
  }
}
