/** The v1/v2c client: requests, replies and the walk, over a network that is only a script of datagrams. */
module Client {
  import opened Octets
  import opened Results
  import opened Types
  import opened Oids
  import opened BerSpec
  import opened BerFacts
  import opened Ber
  import opened Messages
  import opened Freshness
  import opened Walk
  import opened Agent

  /**
   The peer as the client sees it: any finite sequence of datagrams or errors, one per exchange,
   then silence. Whatever an agent does in a run is some such sequence.
   */
  class Network {
    var inbox: seq<Result<bytes>>
    var sent: seq<bytes>

    constructor (inbox: seq<Result<bytes>>)
      ensures this.inbox == inbox && sent == []
    {
      this.inbox := inbox;
      sent := [];
    }

    method Exchange(packet: bytes) returns (r: Result<bytes>)
      modifies this
      ensures sent == old(sent) + [packet]
      ensures r == First(old(inbox)) && inbox == Later(old(inbox))
    {
      sent := sent + [packet];
      if inbox == [] {
        return Err(Timeout);
      }
      r := inbox[0];
      inbox := inbox[1..];
    }
  }

  function First(inbox: seq<Result<bytes>>): Result<bytes> {
    if inbox == [] then Err(Timeout) else inbox[0]
  }

  function Later(inbox: seq<Result<bytes>>): seq<Result<bytes>> {
    if inbox == [] then [] else inbox[1..]
  }

  /** What the caller gets from one datagram. */
  function Interpret(datagram: Result<bytes>): Reply {
    var data :- datagram;
    var response :- ResponseOf(data);
    :- Need(response.errorStatus == 0, Snmp(response.errorStatus, response.errorIndex));
    Ok(response.varbinds)
  }

  function InterpretAll(inbox: seq<Result<bytes>>): (replies: seq<Reply>)
    ensures |replies| == |inbox|
  {
    seq(|inbox|, i requires 0 <= i < |inbox| => Interpret(inbox[i]))
  }

  /** The script of datagrams and the script of replies advance together. */
  lemma InterpretedInStep(inbox: seq<Result<bytes>>)
    ensures FirstReply(InterpretAll(inbox)) == Interpret(First(inbox))
    ensures LaterReplies(InterpretAll(inbox)) == InterpretAll(Later(inbox))
  {
    hide ResponseOf;
    if inbox != [] {
      assert InterpretAll(inbox)[1..] == InterpretAll(Later(inbox));
    }
  }

  function RequestPdu(requestId: i32, f1: i32, f2: i32, vbs: seq<VarBind>): bytes {
    PduContent(requestId, f1, f2, VarBindsBytes(vbs, false))
  }

  /** How the walk of a version asks. */
  function AskingOf(version: Version): Asking {
    if version.V1? then Single else Bulk
  }

  function WalkTag(version: Version): byte {
    if version.V1? then PDU_GETNEXT else PDU_GETBULK
  }

  function WalkPdu(version: Version, requestId: i32, oid: Oid): bytes {
    RequestPdu(requestId, 0, if version.V1? then 0 else MAX_REPETITIONS, NullVarBinds([oid]))
  }

  /** The packet with which a walk asks for what follows `oid`. */
  function WalkPacket(version: Version, community: bytes, requestId: i32, oid: Oid): bytes {
    MessageBytes(version, community, WalkTag(version), WalkPdu(version, requestId, oid))
  }

  function WalkPackets(version: Version, community: bytes, id: i32, asked: seq<Oid>): (ps: seq<bytes>)
    ensures |ps| == |asked|
  {
    seq(|asked|, i requires 0 <= i < |asked| => WalkPacket(version, community, IdAfter(id, i + 1), asked[i]))
  }

  class SnmpClient {
    const version: Version
    const community: bytes
    const network: Network
    var requestId: i32

    constructor (version: Version, community: bytes, network: Network, requestId: i32)
      ensures this.version == version && this.community == community
      ensures this.network == network && this.requestId == requestId
    {
      this.version := version;
      this.community := community;
      this.network := network;
      this.requestId := requestId;
    }

    method NextRequestId() returns (id: i32)
      modifies this
      ensures id == requestId == NextId(old(requestId))
    {
      requestId := ToI32(requestId + 1);
      if requestId < 0 {
        requestId := 1;
      }
      id := requestId;
    }

    /** Send, receive, decode, and turn an error status into an error. */
    method Ask(packet: bytes) returns (r: Reply)
      modifies network
      ensures r == Interpret(First(old(network.inbox)))
      ensures network.inbox == Later(old(network.inbox)) && network.sent == old(network.sent) + [packet]
    {
      var data :- network.Exchange(packet);
      var response :- DecodeResponse(data);
      if response.errorStatus != 0 {
        return Err(Snmp(response.errorStatus, response.errorIndex));
      }
      return Ok(response.varbinds);
    }

    method Get(oids: seq<Oid>) returns (r: Reply)
      modifies this, network
      ensures requestId == NextId(old(requestId)) && r == Interpret(First(old(network.inbox)))
      ensures network.inbox == Later(old(network.inbox))
      ensures network.sent == old(network.sent)
                              + [MessageBytes(version, community, PDU_GET, RequestPdu(requestId, 0, 0, NullVarBinds(oids)))]
    {
      var id := NextRequestId();
      var packet := EncodePdu(version, community, id, PDU_GET, oids);
      r := Ask(packet);
    }

    method GetNext(oids: seq<Oid>) returns (r: Reply)
      modifies this, network
      ensures requestId == NextId(old(requestId)) && r == Interpret(First(old(network.inbox)))
      ensures network.inbox == Later(old(network.inbox))
      ensures network.sent == old(network.sent)
                              + [MessageBytes(version, community, PDU_GETNEXT, RequestPdu(requestId, 0, 0, NullVarBinds(oids)))]
    {
      var id := NextRequestId();
      var packet := EncodePdu(version, community, id, PDU_GETNEXT, oids);
      r := Ask(packet);
    }

    method GetBulk(oids: seq<Oid>, nonRepeaters: i32, maxRepetitions: i32) returns (r: Reply)
      modifies this, network
      ensures requestId == NextId(old(requestId)) && r == Interpret(First(old(network.inbox)))
      ensures network.inbox == Later(old(network.inbox))
      ensures network.sent == old(network.sent)
                              + [MessageBytes(version, community, PDU_GETBULK,
                                              RequestPdu(requestId, nonRepeaters, maxRepetitions, NullVarBinds(oids)))]
    {
      var id := NextRequestId();
      var packet := EncodeGetBulkRequest(version, community, id, nonRepeaters, maxRepetitions, oids);
      r := Ask(packet);
    }

    method Set(varbinds: seq<VarBind>) returns (r: Reply)
      modifies this, network
      ensures requestId == NextId(old(requestId)) && r == Interpret(First(old(network.inbox)))
      ensures network.inbox == Later(old(network.inbox))
      ensures network.sent == old(network.sent)
                              + [MessageBytes(version, community, PDU_SET, RequestPdu(requestId, 0, 0, varbinds))]
    {
      var id := NextRequestId();
      var packet := EncodeSetRequest(version, community, id, varbinds);
      r := Ask(packet);
    }

    method AskBeyond(oid: Oid) returns (r: Reply)
      modifies this, network
      ensures requestId == NextId(old(requestId)) && r == Interpret(First(old(network.inbox)))
      ensures network.inbox == Later(old(network.inbox))
      ensures network.sent == old(network.sent) + [WalkPacket(version, community, requestId, oid)]
    {
      if version == V1 {
        r := GetNext([oid]);
      } else {
        r := GetBulk([oid], 0, MAX_REPETITIONS);
      }
    }

    /**
     The walk consumes replies as `Outcome` says, asks for the identifiers `Requests` lists, each in a packet
     of its own with the next request id, and sends nothing else.
     */
    method WalkSubtree(root: Oid) returns (r: Reply)
      modifies this, network
      ensures r == Outcome(root, InterpretAll(old(network.inbox)))
      ensures var asked := Requests(root, root, InterpretAll(old(network.inbox)));
              && network.sent == old(network.sent) + WalkPackets(version, community, old(requestId), asked)
              && requestId == IdAfter(old(requestId), |asked|)
    {
      hide Outcome, Requests, Interpret, InterpretAll, FirstReply, LaterReplies, WalkPacket, WalkPackets, NextId, Taken, Last, Following;
      ghost var replies := InterpretAll(network.inbox);
      ghost var asked: seq<Oid> := [];
      var results: seq<VarBind> := [];
      var current := root;
      FollowingNothing(Outcome(root, replies));
      while true
        invariant Outcome(root, replies) == Following(results, Outcome(root, InterpretAll(network.inbox)))
        invariant Requests(root, root, replies) == asked + Requests(root, current, InterpretAll(network.inbox))
        invariant network.sent == old(network.sent) + WalkPackets(version, community, old(requestId), asked)
        invariant requestId == IdAfter(old(requestId), |asked|)
        decreases |network.inbox|
      {
        ghost var now, later := InterpretAll(network.inbox), InterpretAll(Later(network.inbox));
        InterpretedInStep(network.inbox);
        Round(root, current, now);
        PacketsAppend(version, community, old(requestId), asked, current);
        FollowingEnds(results, Outcome(root, now));
        var varbinds :- AskBeyond(current);
        asked := asked + [current];
        if varbinds == [] {
          return Ok(results);
        }
        FollowingMore(results, varbinds, Outcome(root, later));
        var done;
        current, results, done := Collect(root, varbinds, current, results);
        if done {
          return Ok(results);
        }
      }
    }
  }

  lemma PacketsAppend(version: Version, community: bytes, id: i32, asked: seq<Oid>, oid: Oid)
    ensures WalkPackets(version, community, id, asked + [oid])
         == WalkPackets(version, community, id, asked) + [WalkPacket(version, community, IdAfter(id, |asked| + 1), oid)]
  {
    hide WalkPacket, IdAfter;
  }

  // ---- The walk over the wire ----

  /** A response as an agent encodes it, markers tagged; an error response may repeat any varbinds. */
  datatype Datagram = Datagram(version: Version, community: bytes, requestId: i32, status: i32, index: i32,
                               varbinds: seq<VarBind>)
  {
    function Content(): bytes {
      MessageContent(version, community, PDU_RESPONSE, PduContent(requestId, status, index, VarBindsBytes(varbinds, true)))
    }

    function Octets(): bytes {
      SequenceTlv(Content())
    }

    /** What the agent means to say. */
    function Meaning(): Reply {
      if status == 0 then Ok(varbinds) else Err(Snmp(ToU32(status), ToU32(index)))
    }

    /** Within the codec's limits: encodable identifiers, contents below 2^24 octets. */
    ghost predicate Fits() {
      |Content()| < LENGTH_LIMIT && forall vb :: vb in varbinds ==> Faithful(vb, true)
    }
  }

  lemma DatagramIsInterpreted(d: Datagram)
    requires d.Fits()
    ensures Interpret(Ok(d.Octets())) == d.Meaning()
  {
    hide MessageContent, PduContent, VarBindsBytes, Faithful, ResponseOf;
    MessageRoundTrip(d.version, d.community, PDU_RESPONSE, d.requestId, d.status, d.index, d.varbinds, true, []);
    assert d.Octets() + [] == d.Octets();
    FaithfulOnWire(d.varbinds, true);
  }

  function Sending(ds: seq<Datagram>): (inbox: seq<Result<bytes>>)
    ensures |inbox| == |ds|
  {
    seq(|ds|, i requires 0 <= i < |ds| => Ok(ds[i].Octets()))
  }

  function Meanings(ds: seq<Datagram>): (replies: seq<Reply>)
    ensures |replies| == |ds|
  {
    seq(|ds|, i requires 0 <= i < |ds| => ds[i].Meaning())
  }

  lemma SendingIsInterpreted(ds: seq<Datagram>)
    requires forall i :: 0 <= i < |ds| ==> ds[i].Fits()
    ensures InterpretAll(Sending(ds)) == Meanings(ds)
  {
    hide Interpret, Datagram.Octets, Datagram.Fits, Datagram.Meaning;
    forall i | 0 <= i < |ds|
      ensures InterpretAll(Sending(ds))[i] == Meanings(ds)[i]
    {
      DatagramIsInterpreted(ds[i]);
    }
  }

  /** Within the codec's limits, whatever the request id. */
  ghost predicate Askable(version: Version, community: bytes, oid: Oid) {
    forall id: i32 ::
      |MessageContent(version, community, WalkTag(version), WalkPdu(version, id, oid))| < LENGTH_LIMIT
  }

  /** What the agent reads in a walk's packet: everything as meant, but for an identifier that the wire cannot carry. */
  lemma WalkPacketRead(version: Version, community: bytes, id: i32, oid: Oid)
    requires Askable(version, community, oid)
    ensures QueryOf(community, WalkPacket(version, community, id, oid))
         == Ok(Query(version, WalkTag(version), id, 0, if version.V1? then 0 else MAX_REPETITIONS,
                     [VarBind(OnWire(oid), Null)]))
  {
    hide QueryOf, MessageContent, MessageBytes, PduContent, VarBindsBytes, OnWire;
    var packet, f2 := WalkPacket(version, community, id, oid), if version.V1? then 0 else MAX_REPETITIONS;
    assert |MessageContent(version, community, WalkTag(version), WalkPdu(version, id, oid))| < LENGTH_LIMIT;
    QueryRead(version, community, WalkTag(version), id, 0, f2, NullVarBinds([oid]), false, []);
    assert packet + [] == packet;
    OneNull(oid);
  }

  /** Two roots that look alike on the wire: of a single component nothing is sent. */
  lemma SingleComponentsLookAlike(version: Version, community: bytes, id: i32, c: u32)
    ensures WalkPacket(version, community, id, [c]) == WalkPacket(version, community, id, [])
  {
    hide MessageBytes, PduContent, Tlv;
    assert NullVarBinds([[c]]) == [VarBind([c], Null)] && NullVarBinds([[]]) == [VarBind([], Null)];
    assert [VarBind([c], Null)][1..] == [VarBind([], Null)][1..];
  }

  /** The agent serves its MIB to every packet of the walk as it reads it; what it replies arrives in `ds`. */
  ghost predicate Served(version: Version, community: bytes, id: i32, m: seq<VarBind>, root: Oid, ds: seq<Datagram>) {
    var packets := WalkPackets(version, community, id, Requests(root, root, InterpretAll(Sending(ds))));
    forall i :: 0 <= i < |packets| && i < |ds| ==> Serves(m, QueryOf(community, packets[i]), ds[i].Meaning())
  }

  /** An agent that serves the packet with which `oid` is asked for serves `oid` as it arrives. */
  lemma ServedIsLegal(version: Version, community: bytes, id: i32, m: seq<VarBind>, oid: Oid, reply: Reply)
    requires Askable(version, community, oid)
    requires Serves(m, QueryOf(community, WalkPacket(version, community, id, oid)), reply)
    ensures Legal(AskingOf(version), m, OnWire(oid), reply)
  {
    hide QueryOf, WalkPacket, OnWire, Askable, BulkReply, NextReply;
    WalkPacketRead(version, community, id, oid);
  }

  lemma {:induction false} ServedAt(version: Version, community: bytes, id: i32, m: seq<VarBind>, root: Oid,
                                    ds: seq<Datagram>, k: nat)
    requires Served(version, community, id, m, root, ds)
    requires Askable(version, community, root)
    requires forall i :: 0 <= i < |m| ==> Askable(version, community, m[i].oid)
    requires forall i :: 0 <= i < |ds| ==> ds[i].Fits()
    requires k < |Requests(root, root, Meanings(ds))| && k < |ds|
    ensures |Requests(root, OnWire(root), Meanings(ds))| == |Requests(root, root, Meanings(ds))|
    ensures Legal(AskingOf(version), m, Requests(root, OnWire(root), Meanings(ds))[k], Meanings(ds)[k])
    decreases k
  {
    hide Requests, WalkPacket, QueryOf, Askable, OnWire, Encodable, Legal, InterpretAll, Serves, IdAfter, Datagram.Meaning,
      Datagram.Octets, Datagram.Fits;
    var replies := Meanings(ds);
    var asked := Requests(root, root, replies);
    SendingIsInterpreted(ds);
    if k > 0 {
      ServedAt(version, community, id, m, root, ds, k - 1);
      AskedIsEntry(AskingOf(version), m, root, OnWire(root), replies, k);
      FirstStandsApart(root, root, OnWire(root), replies);
      assert asked[k] == asked[1..][k - 1] == Requests(root, OnWire(root), replies)[k];
      MeaningIsFaithful(ds[k - 1]);
    }
    var packets := WalkPackets(version, community, id, asked);
    assert Serves(m, QueryOf(community, packets[k]), ds[k].Meaning());
    ServedIsLegal(version, community, IdAfter(id, k + 1), m, asked[k], replies[k]);
    SeenRequest(root, replies, k);
  }

  lemma MeaningIsFaithful(d: Datagram)
    requires d.Fits() && d.Meaning().Ok?
    ensures forall vb :: vb in d.Meaning().value ==> Encodable(vb.oid)
  {
    hide Encodable, Datagram.Content;
  }

  /**
   The closed loop, down to octets: the agent sees nothing of the client but the packets that `WalkSubtree`
   sends, the client nothing of the agent but its replies. The walk gives what lies ahead of the root as it
   arrives and, for walkable roots, exactly the subtree, or under version 1 with nothing after the subtree
   the agent's noSuchName.
   */
  lemma WireWalkIsExact(version: Version, community: bytes, id: i32, m: seq<VarBind>, root: Oid, ds: seq<Datagram>)
    requires IsMib(m) && |ds| > |Pending(m, root, OnWire(root))|
    requires Askable(version, community, root)
    requires forall i :: 0 <= i < |m| ==> Askable(version, community, m[i].oid)
    requires forall i :: 0 <= i < |ds| ==> ds[i].Fits()
    requires Served(version, community, id, m, root, ds)
    ensures var how, outcome := AskingOf(version), Outcome(root, InterpretAll(Sending(ds)));
            && outcome == WalkedFrom(how, m, root, OnWire(root))
            && (IsFaithfulMib(m) && Walkable(how, root) ==> outcome == Expected(how, m, root))
  {
    hide IsMib, Pending, Requests, Askable, OnWire, Legal, Served, Outcome, WalkedFrom, Expected, Walkable, IsFaithfulMib,
      InterpretAll, Datagram.Meaning, Datagram.Fits;
    var how, replies := AskingOf(version), Meanings(ds);
    SendingIsInterpreted(ds);
    forall k | 0 <= k < |Requests(root, OnWire(root), replies)| && k < |replies|
      ensures Legal(how, m, Requests(root, OnWire(root), replies)[k], replies[k])
    {
      FirstStandsApart(root, root, OnWire(root), replies);
      ServedAt(version, community, id, m, root, ds, k);
    }
    WalkFrom(how, m, root, OnWire(root), replies);
    if IsFaithfulMib(m) && Walkable(how, root) {
      WalkableIsExact(how, m, root);
    }
  }

  /**
   A failing run, octet for octet: asked for what follows the root [c], an agent that serves its MIB sends the first
   entry of the MIB, and the walk gives the caller nothing of a subtree that has an entry.
   */
  lemma LostOnWire(community: bytes, id: i32, c: u32, d: Datagram)
    requires 1 <= c <= 6 && Askable(V2c, community, [c])
    requires d.Fits() && d.status == 0 && d.varbinds == [VarBind([0, 0], Null)]
    ensures var m := [VarBind([0, 0], Null), VarBind([c, 0], Null)];
            && Served(V2c, community, id, m, [c], [d])
            && Expected(Bulk, m, [c]) == Ok([m[1]])
            && Outcome([c], InterpretAll(Sending([d]))) == Ok([])
  {
    hide Interpret, QueryOf, WalkPacket, Askable, Expected, WalkedFrom, Datagram.Fits, Datagram.Octets, Beyond, OnWire, IsMib;
    var m := [VarBind([0, 0], Null), VarBind([c, 0], Null)];
    LostSubtree(c);
    LostEntries(c);
    SendingIsInterpreted([d]);
    assert Meanings([d]) == [Ok(d.varbinds)];
    SingleReply([c], [c], m[0]);
    assert Requests([c], [c], Meanings([d])) == [[c]];
    WalkPacketRead(V2c, community, IdAfter(id, 1), [c]);
    FirstBeyond(m, []);
    ComponentIsLost(c);
    assert Successors(m, [], d.varbinds) by { assert d.varbinds[1..] == []; }
  }
}
