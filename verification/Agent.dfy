/**
 The peer of a walk: what a conforming agent reads from the octets of a request, how it answers from its MIB,
 and what a walk is worth whose root does not arrive as it was meant.
 */
module Agent {
  import opened Octets
  import opened Results
  import opened Types
  import opened Oids
  import opened BerSpec
  import opened BerFacts
  import opened Ber
  import opened Messages
  import opened Walk

  // ---- Reading requests ----

  /** What a request asks, whatever carried it; the middle fields are those of a GETBULK. */
  datatype Query = Query(version: Version, tag: byte, requestId: int, nonRepeaters: int, repetitions: int,
                         varbinds: seq<VarBind>)

  /** A request as an agent for `community` reads it: the layout of every message, with any PDU tag. */
  function QueryOf(community: bytes, data: bytes): Result<Query> {
    var msg :- ReadSequence(data);
    var number :- ReadInteger(msg.value);
    var version :- VersionOf(number.value);
    var name :- ReadOctets(number.rest);
    :- Need(name.value == community, AuthFailed);
    var body :- ReadTlv(name.rest);
    var pdu :- PduOf(body.content);
    Ok(Query(version, body.tag, pdu.requestId, pdu.status, pdu.index, pdu.varbinds))
  }

  /** Every request of the community client reaches the agent with all its fields, whatever octets follow. */
  lemma QueryRead(version: Version, community: bytes, tag: byte, requestId: i32, f1: i32, f2: i32,
                  vbs: seq<VarBind>, tagged: bool, x: bytes)
    requires |MessageContent(version, community, tag,
                             PduContent(requestId, f1, f2, VarBindsBytes(vbs, tagged)))| < LENGTH_LIMIT
    ensures QueryOf(community, MessageBytes(version, community, tag,
                                            PduContent(requestId, f1, f2, VarBindsBytes(vbs, tagged))) + x)
         == Ok(Query(version, tag, requestId, f1, f2, VarBindsOnWire(vbs, tagged)))
  {
    hide ReadTlv, PduOf, PduContent, ReadInteger, ReadOctets, IntegerTlv, VarBindsBytes, VarBindsOnWire;
    var pdu := PduContent(requestId, f1, f2, VarBindsBytes(vbs, tagged));
    var body := Tlv(tag, pdu);
    SequenceRead(MessageContent(version, community, tag, pdu), x);
    IntegerRead(version.Number(), OctetsTlv(community) + body);
    OctetsRead(community, body);
    TlvRead(tag, pdu, []);
    assert body + [] == body;
    ListFits(requestId, f1, f2, VarBindsBytes(vbs, tagged));
    PduRead(requestId, f1, f2, vbs, tagged);
  }

  lemma ListFits(requestId: i32, f1: i32, f2: i32, list: bytes)
    ensures |list| < |PduContent(requestId, f1, f2, list)|
  {
  }

  lemma OneNull(oid: Oid)
    ensures VarBindsOnWire(NullVarBinds([oid]), false) == [VarBind(OnWire(oid), Null)]
  {
    hide OnWire;
    assert NullVarBinds([oid]) == [VarBind(oid, Null)];
    assert VarBindsOnWire([VarBind(oid, Null)][1..], false) == [];
  }

  // ---- Answering from a MIB ----

  /**
   A conforming answer to a walk's request (sections 4.2.2 and 4.2.3 of RFC 3416, section 4.1.3 of RFC 1157).
   Other requests may be answered in any way.
   */
  predicate Conforms(m: seq<VarBind>, q: Query, reply: Reply) {
    |q.varbinds| == 1 ==>
      var o := q.varbinds[0].oid;
      && (q.version != V1 && q.tag == PDU_GETBULK && q.nonRepeaters == 0 && q.repetitions > 0 ==>
            BulkReply(m, o, q.repetitions, reply))
      && (q.version == V1 && q.tag == PDU_GETNEXT ==> reply == NextReply(m, o))
  }

  /** What the agent cannot read it may answer in any way. */
  predicate Serves(m: seq<VarBind>, query: Result<Query>, reply: Reply) {
    query.Ok? ==> Conforms(m, query.value, reply)
  }

  // ---- Roots that do not arrive ----

  lemma OnWireEncodable(o: Oid)
    ensures Encodable(OnWire(o))
    ensures Encodable(o) ==> OnWire(o) == o
  {
    OidOnWire(o);
    OidRoundTrip(o);
  }

  /** What arrives of the `k`th request: the root as the wire carries it, later identifiers as they are. */
  lemma SeenRequest(root: Oid, replies: seq<Reply>, k: nat)
    requires k < |Requests(root, root, replies)|
    requires k > 0 ==> Encodable(Requests(root, root, replies)[k])
    ensures |Requests(root, OnWire(root), replies)| == |Requests(root, root, replies)|
    ensures Requests(root, OnWire(root), replies)[k] == OnWire(Requests(root, root, replies)[k])
  {
    hide OnWire, Encodable;
    FirstStandsApart(root, root, OnWire(root), replies);
    var a, b := Requests(root, root, replies), Requests(root, OnWire(root), replies);
    if k > 0 {
      assert a[k] == a[1..][k - 1] && b[k] == b[1..][k - 1];
      OnWireEncodable(a[k]);
    }
  }

  /** Ordered entries, all of which the codec can carry. */
  ghost predicate IsFaithfulMib(m: seq<VarBind>) {
    IsMib(m) && forall i :: 0 <= i < |m| ==> Faithful(m[i], true)
  }

  /** The answer that the walk owes its caller. */
  function Expected(how: Asking, m: seq<VarBind>, root: Oid): Reply {
    if how.Bulk? || |Subtree(m, root)| < |Beyond(m, root)| then Ok(Subtree(m, root))
    else Err(Snmp(NO_SUCH_NAME, 1))
  }

  /**
   Roots whose walk is exact on every MIB: encodable ones, those that nothing encodable can lie under, and
   the root [0], which what comes before it cannot be told from.
   */
  predicate Walkable(how: Asking, root: Oid) {
    match how
    case Bulk => !(|root| == 1 && 1 <= root[0] <= 6)
    case Single => Encodable(root) || root == [0]
  }

  lemma UnderAgrees(root: Oid, o: Oid, k: nat)
    requires Under(root, o) && k < |root|
    ensures root[k] == o[k]
  {
    assert o[..|root|][k] == o[k];
  }

  /** Nothing encodable lies under a root that is neither encodable itself nor a single component up to 6. */
  lemma NothingUnder(root: Oid, o: Oid)
    requires !Encodable(root) && !(|root| == 1 && root[0] <= 6)
    requires Encodable(o)
    ensures !Under(root, o)
  {
    hide Under;
    assert Under(root, o) ==> |root| <= |o| by { UnderShorter(root, o); }
    if Under(root, o) && |root| >= 2 {
      UnderAgrees(root, o, 1);
    }
    if Under(root, o) {
      UnderAgrees(root, o, 0);
    }
  }

  lemma UnderShorter(root: Oid, o: Oid)
    ensures Under(root, o) ==> |root| <= |o|
  {
  }

  lemma {:induction false} EmptySubtree(m: seq<VarBind>, root: Oid)
    requires forall i :: 0 <= i < |m| ==> !Under(root, m[i].oid)
    ensures Subtree(m, root) == []
  {
    if m != [] {
      EmptySubtree(m[1..], root);
    }
  }

  lemma NothingPending(m: seq<VarBind>, root: Oid, o: Oid)
    requires forall i :: 0 <= i < |m| ==> !Under(root, m[i].oid)
    ensures Pending(m, root, o) == []
  {
    hide Under, Less;
    var b := Beyond(m, o);
    if b != [] {
      assert b[0] == m[|m| - |b|];
    }
  }

  /** Encodable entries follow [0] exactly when they follow the empty identifier. */
  lemma {:induction false} ZeroFollowsNothing(m: seq<VarBind>)
    requires forall i :: 0 <= i < |m| ==> Faithful(m[i], true)
    ensures Beyond(m, [0]) == Beyond(m, [])
  {
    if m != [] {
      var o := m[0].oid;
      assert Less([0], o) <==> Less([], o) by {
        if o != [] && o[0] == 0 {
          assert [0][1..] == [] && o[1..] != [];
        }
      }
      ZeroFollowsNothing(m[1..]);
    }
  }

  /** On walkable roots the walk is exact. */
  lemma WalkableIsExact(how: Asking, m: seq<VarBind>, root: Oid)
    requires IsFaithfulMib(m) && Walkable(how, root)
    ensures WalkedFrom(how, m, root, OnWire(root)) == Expected(how, m, root)
  {
    hide IsMib, Subtree, Beyond, Taken;
    SubtreeIsPending(m, root);
    OnWireEncodable(root);
    if root == [0] {
      ZeroFollowsNothing(m);
    } else if !Encodable(root) {
      forall i | 0 <= i < |m|
        ensures !Under(root, m[i].oid)
      {
        NothingUnder(root, m[i].oid);
      }
      EmptySubtree(m, root);
      NothingPending(m, root, OnWire(root));
    }
  }

  lemma ComponentIsLost(c: u32)
    ensures OnWire([c]) == []
  {
  }

  lemma OneEntry(vb: VarBind, o: Oid)
    ensures Beyond([vb], o) == if Less(o, vb.oid) then [vb] else []
  {
    hide Less;
    assert [vb][1..] == [];
  }

  /** Two entries, the second under the root: asked for the empty identifier, the agent begins with the first. */
  lemma LostSubtree(c: u32)
    requires 1 <= c <= 6
    ensures var m := [VarBind([0, 0], Null), VarBind([c, 0], Null)];
            && IsFaithfulMib(m)
            && Expected(Bulk, m, [c]) == Ok([m[1]])
            && WalkedFrom(Bulk, m, [c], OnWire([c])) == Ok([])
  {
    hide IsFaithfulMib, IsMib, Beyond, Subtree, Taken, Keeps, Less, OnWire, Faithful;
    ComponentIsLost(c);
    var a, b := VarBind([0, 0], Null), VarBind([c, 0], Null);
    var m := [a, b];
    LostEntries(c);
    TwoAreMib(a, b);
    IsMibOf(m);
    SubtreeIsPending(m, [c]);
    FirstBeyond(m, []);
    NotBeyond(a, b, [c]);
    TakenStep([c], a, [b]);
    TakenStep([c], b, []);
    assert m == [a] + [b] && [b] == [b] + [];
    TakenNothing([c]);
  }

  lemma LostEntries(c: u32)
    requires 1 <= c <= 6
    ensures Less([], [0, 0]) && Less([0, 0], [c, 0]) && !Less([c], [0, 0]) && Less([c], [c, 0])
    ensures Keeps([c], VarBind([c, 0], Null)) && !Keeps([c], VarBind([0, 0], Null))
    ensures Faithful(VarBind([0, 0], Null), true) && Faithful(VarBind([c, 0], Null), true)
  {
    assert [c, 0][..1] == [c] && [0, 0][..1] == [0];
  }

  lemma IsMibOf(m: seq<VarBind>)
    requires IsFaithfulMib(m)
    ensures IsMib(m)
  {
  }

  lemma FirstBeyond(m: seq<VarBind>, o: Oid)
    requires m != [] && Less(o, m[0].oid)
    ensures Beyond(m, o) == m
  {
  }

  lemma NotBeyond(a: VarBind, b: VarBind, o: Oid)
    requires !Less(o, a.oid) && Less(o, b.oid)
    ensures Beyond([a, b], o) == [b]
  {
    assert [a, b][1..] == [b];
    FirstBeyond([b], o);
  }

  lemma TakenNothing(root: Oid)
    ensures Taken(root, []) == []
  {
  }

  lemma {:induction false} OrderedBy(a: Oid, b: Oid)
    requires |a| == |b| && a != b
    ensures Less(a, b) || Less(b, a)
    ensures Less(a, b) ==> Less(a + [0], b)
  {
    if a[0] == b[0] {
      assert a == [a[0]] + a[1..] && b == [b[0]] + b[1..];
      assert (a + [0])[1..] == a[1..] + [0];
      OrderedBy(a[1..], b[1..]);
    }
  }

  lemma {:induction false} ExtensionFollows(a: Oid)
    ensures Less(a, a + [0])
  {
    if a != [] {
      assert (a + [0])[1..] == a[1..] + [0];
      ExtensionFollows(a[1..]);
    }
  }

  lemma OneIsMib(vb: VarBind)
    requires Faithful(vb, true) && !vb.value.IsException()
    ensures IsFaithfulMib([vb])
  {
  }

  lemma TwoAreMib(a: VarBind, b: VarBind)
    requires Faithful(a, true) && !a.value.IsException() && Faithful(b, true) && !b.value.IsException()
    requires Less(a.oid, b.oid)
    ensures IsFaithfulMib([a, b])
  {
  }

  /** An entry that only one of root and what arrived of it has before it betrays the difference. */
  lemma Betrayed(root: Oid, o: Oid)
    requires Encodable(o) && !Under(root, o) && Less(root, o) != Less(OnWire(root), o)
    ensures var m := [VarBind(o, Null)];
            IsFaithfulMib(m) && WalkedFrom(Single, m, root, OnWire(root)) != Expected(Single, m, root)
  {
    hide IsFaithfulMib, Beyond, Subtree, Less, Under, OnWire, Encodable, Pending;
    var m := [VarBind(o, Null)];
    OneIsMib(m[0]);
    OneEntry(m[0], root);
    OneEntry(m[0], OnWire(root));
    EmptySubtree(m, root);
    NothingPending(m, root, OnWire(root));
  }

  lemma UnwalkableSingle(root: Oid) returns (o: Oid)
    requires !Walkable(Single, root)
    ensures Encodable(o) && !Under(root, o) && Less(root, o) != Less(OnWire(root), o)
  {
    if |root| == 1 {
      o := [0, 0];
      assert o[..1] == [0];
    } else {
      var seen := OnWire(root);
      OnWireEncodable(root);
      assert seen != root;
      OrderedBy(root, seen);
      if Less(root, seen) {
        o := seen;
        LessIrreflexive(seen);
      } else {
        o := seen + [0];
        OrderedBy(seen, root);
        ExtensionFollows(seen);
        if Less(root, o) {
          LessTransitive(root, o, root);
          LessIrreflexive(root);
        }
      }
      NothingUnder(root, o);
    }
  }

  /** A root is walked exactly on every MIB that the codec can carry if and only if it is walkable. */
  lemma WalkableRoots(how: Asking, root: Oid)
    ensures Walkable(how, root) <==>
            forall m :: IsFaithfulMib(m) ==> WalkedFrom(how, m, root, OnWire(root)) == Expected(how, m, root)
  {
    hide WalkedFrom, Expected, OnWire, IsFaithfulMib;
    if Walkable(how, root) {
      forall m | IsFaithfulMib(m)
        ensures WalkedFrom(how, m, root, OnWire(root)) == Expected(how, m, root)
      {
        WalkableIsExact(how, m, root);
      }
    } else if how.Bulk? {
      var m := [VarBind([0, 0], Null), VarBind([root[0], 0], Null)];
      LostSubtree(root[0]);
      assert root == [root[0]];
    } else {
      var o := UnwalkableSingle(root);
      Betrayed(root, o);
    }
  }
}
