/**
 Walking a subtree: what the loop collects from any replies at all, and what that is when the replies
 come from an agent that serves an ordered MIB (sections 4.2.2 and 4.2.3 of RFC 3416).
 */
module Walk {
  import opened Results
  import opened Types

  /** What one exchange gives the walk: the varbinds of a reply, or the error that ends it. */
  type Reply = Result<seq<VarBind>>

  // ---- The loop ----

  predicate Keeps(root: Oid, vb: VarBind) {
    Under(root, vb.oid) && !vb.value.IsException()
  }

  lemma KeptMeans(root: Oid, vb: VarBind)
    ensures Keeps(root, vb) <==>
            && |root| <= |vb.oid| && (forall i :: 0 <= i < |root| ==> vb.oid[i] == root[i])
            && vb.value != NoSuchObject && vb.value != NoSuchInstance && vb.value != EndOfMibView
  {
    if |root| <= |vb.oid| {
      assert forall i :: 0 <= i < |root| ==> vb.oid[..|root|][i] == vb.oid[i];
    }
  }

  /** The varbinds of a reply up to the first that leaves the subtree or marks its end. */
  function Taken(root: Oid, vbs: seq<VarBind>): seq<VarBind> {
    if vbs == [] || !Keeps(root, vbs[0]) then [] else [vbs[0]] + Taken(root, vbs[1..])
  }

  lemma {:induction false} TakenIsPrefix(root: Oid, vbs: seq<VarBind>)
    ensures var t := Taken(root, vbs);
            && t <= vbs
            && (forall i :: 0 <= i < |t| ==> Keeps(root, t[i]))
            && (|t| < |vbs| ==> !Keeps(root, vbs[|t|]))
  {
    if vbs != [] && Keeps(root, vbs[0]) {
      TakenIsPrefix(root, vbs[1..]);
    }
  }

  /** The identifier to ask for next. */
  function Last(current: Oid, taken: seq<VarBind>): Oid {
    if taken == [] then current else taken[|taken| - 1].oid
  }

  /** Whether a reply lets the walk go on. */
  predicate GoesOn(root: Oid, reply: Reply) {
    reply.Ok? && reply.value != [] && Taken(root, reply.value) == reply.value
  }

  /** The result of the walk; without a further reply it times out. */
  function Outcome(root: Oid, replies: seq<Reply>): Reply {
    if replies == [] then Err(Timeout)
    else
      var vbs :- replies[0];
      if GoesOn(root, replies[0]) then
        var more :- Outcome(root, replies[1..]);
        Ok(vbs + more)
      else Ok(Taken(root, vbs))
  }

  /** The identifiers asked for, in order. */
  function Requests(root: Oid, current: Oid, replies: seq<Reply>): (asked: seq<Oid>)
    ensures 1 <= |asked| <= |replies| + 1 && asked[0] == current
    decreases |replies|
  {
    [current] +
    if replies != [] && GoesOn(root, replies[0])
    then Requests(root, Last(current, replies[0].value), replies[1..])
    else []
  }

  // ---- Any agent at all ----

  /** Everything the agent sent before its first error. */
  function Sent(replies: seq<Reply>): seq<VarBind> {
    if replies == [] || replies[0].Err? then [] else replies[0].value + Sent(replies[1..])
  }

  /** Safety: results are an initial part of what was sent, all in the subtree, none a marker. */
  lemma {:induction false} WalkIsSafe(root: Oid, replies: seq<Reply>)
    requires Outcome(root, replies).Ok?
    ensures Outcome(root, replies).value <= Sent(replies)
    ensures forall vb :: vb in Outcome(root, replies).value ==> Keeps(root, vb)
  {
    var vbs := replies[0].value;
    TakenIsPrefix(root, vbs);
    if GoesOn(root, replies[0]) {
      WalkIsSafe(root, replies[1..]);
      var more := Outcome(root, replies[1..]).value;
      assert forall vb :: vb in vbs ==> vb in Taken(root, vbs);
      assert vbs + more <= vbs + Sent(replies[1..]);
    }
  }

  /** Each request names the last varbind received, or the root at the start. */
  lemma {:induction false} RequestsFollowReplies(root: Oid, current: Oid, replies: seq<Reply>, k: nat)
    requires k < |Requests(root, current, replies)|
    ensures k <= |replies|
    ensures Requests(root, current, replies)[k] == Last(current, Sent(replies[..k]))
    decreases k
  {
    if k > 0 {
      var vbs, next := replies[0].value, Last(current, replies[0].value);
      assert Requests(root, current, replies)[k] == Requests(root, next, replies[1..])[k - 1];
      RequestsFollowReplies(root, next, replies[1..], k - 1);
      var rest := replies[1..][..k - 1];
      assert replies[..k][1..] == rest;
      assert Sent(replies[..k]) == vbs + Sent(rest);
      LastOfConcat(current, vbs, Sent(rest));
    }
  }

  /** Before every request, all that was received so far lies in the subtree and none of it is a marker. */
  lemma {:induction false} StepsAreSafe(root: Oid, current: Oid, replies: seq<Reply>, k: nat)
    requires k < |Requests(root, current, replies)|
    ensures forall vb :: vb in Sent(replies[..k]) ==> Keeps(root, vb)
    decreases k
  {
    hide Keeps;
    if k > 0 {
      var vbs := replies[0].value;
      StepsAreSafe(root, Last(current, vbs), replies[1..], k - 1);
      TakenIsPrefix(root, vbs);
      assert replies[..k][1..] == replies[1..][..k - 1];
      assert Sent(replies[..k]) == vbs + Sent(replies[1..][..k - 1]);
    }
  }

  lemma LastOfConcat(current: Oid, a: seq<VarBind>, b: seq<VarBind>)
    ensures Last(current, a + b) == Last(Last(current, a), b)
  {
    if b == [] {
      assert a + b == a;
    }
  }

  /** The loop has no bound of its own: an agent that repeats one varbind is asked for ever. */
  lemma {:induction false} RepeatingAgent(root: Oid, current: Oid, vb: VarBind, n: nat)
    requires Keeps(root, vb)
    ensures Outcome(root, seq(n, _ => Ok([vb]))) == Err(Timeout)
    ensures |Requests(root, current, seq(n, _ => Ok([vb])))| == n + 1
    decreases n
  {
    if n > 0 {
      var replies: seq<Reply> := seq(n, _ => Ok([vb]));
      assert replies[1..] == seq(n - 1, _ => Ok([vb]));
      SingleReply(root, current, vb);
      RepeatingAgent(root, vb.oid, vb, n - 1);
    }
  }

  // ---- Lexicographic order ----

  predicate Less(a: Oid, b: Oid) {
    b != [] && (a == [] || a[0] < b[0] || (a[0] == b[0] && Less(a[1..], b[1..])))
  }

  /** The first difference is at `k`, or `a` ends there. */
  predicate DiffersAt(a: Oid, b: Oid, k: nat) {
    && k < |b| && k <= |a| && (forall i :: 0 <= i < k ==> a[i] == b[i])
    && (k == |a| || a[k] < b[k])
  }

  lemma DiffersLater(a: Oid, b: Oid, k: nat)
    requires a != [] && b != [] && k > 0
    ensures DiffersAt(a, b, k) <==> a[0] == b[0] && DiffersAt(a[1..], b[1..], k - 1)
  {
    if a[0] == b[0] && DiffersAt(a[1..], b[1..], k - 1) {
      forall i | 0 < i < k
        ensures a[i] == b[i]
      {
        assert a[1..][i - 1] == b[1..][i - 1];
      }
    }
  }

  /** The first difference decides, and a prefix comes first (section 4.2.2 of RFC 3416). */
  lemma {:induction false} LessMeans(a: Oid, b: Oid)
    ensures Less(a, b) <==> exists k: nat :: DiffersAt(a, b, k)
  {
    if a == [] || b == [] || a[0] < b[0] {
      assert b != [] ==> DiffersAt(a, b, 0);
    } else {
      LessMeans(a[1..], b[1..]);
      forall k: nat | k > 0
        ensures DiffersAt(a, b, k) <==> a[0] == b[0] && DiffersAt(a[1..], b[1..], k - 1)
      {
        DiffersLater(a, b, k);
      }
      if a[0] == b[0] && Less(a[1..], b[1..]) {
        var k: nat :| DiffersAt(a[1..], b[1..], k);
        assert DiffersAt(a, b, k + 1);
      }
    }
  }

  lemma {:induction false} LessTransitive(a: Oid, b: Oid, c: Oid)
    requires Less(a, b) && Less(b, c)
    ensures Less(a, c)
  {
    if a != [] && a[0] == b[0] && b[0] == c[0] {
      LessTransitive(a[1..], b[1..], c[1..]);
    }
  }

  lemma {:induction false} LessIrreflexive(a: Oid)
    ensures !Less(a, a)
  {
    if a != [] {
      LessIrreflexive(a[1..]);
    }
  }

  lemma UnderTail(root: Oid, o: Oid)
    requires root != [] && o != []
    ensures Under(root, o) <==> root[0] == o[0] && Under(root[1..], o[1..])
  {
    if |root| <= |o| {
      assert o[..|root|] == [o[0]] + o[1..][..|root| - 1];
      assert root == [root[0]] + root[1..];
    }
  }

  /** A proper extension of `root` comes after it. */
  lemma {:induction false} ExtensionsFollow(root: Oid, o: Oid)
    requires Under(root, o) && o != root
    ensures Less(root, o)
  {
    if root != [] {
      UnderTail(root, o);
      assert o == [o[0]] + o[1..] && root == [root[0]] + root[1..];
      ExtensionsFollow(root[1..], o[1..]);
    }
  }

  /** A subtree is contiguous: once the order has left it, it never returns. */
  lemma {:induction false} SubtreeContiguous(root: Oid, a: Oid, b: Oid, c: Oid)
    requires Under(root, a) && Less(a, b) && !Under(root, b) && Less(b, c)
    ensures !Under(root, c)
  {
    if root != [] {
      UnderTail(root, a);
      UnderTail(root, b);
      UnderTail(root, c);
      if a[0] == b[0] == c[0] {
        SubtreeContiguous(root[1..], a[1..], b[1..], c[1..]);
      }
    }
  }

  // ---- Agents that serve a MIB ----

  /** Entries in strictly increasing order, each with a proper value. */
  ghost predicate IsMib(m: seq<VarBind>) {
    && (forall i, j :: 0 <= i < j < |m| ==> Less(m[i].oid, m[j].oid))
    && (forall i :: 0 <= i < |m| ==> !m[i].value.IsException())
  }

  /** The entries after `o`. */
  function Beyond(m: seq<VarBind>, o: Oid): (b: seq<VarBind>)
    ensures |b| <= |m| && b == m[|m| - |b|..]
  {
    if m == [] || Less(o, m[0].oid) then m else Beyond(m[1..], o)
  }

  /** The successor of `o`, or the end marker under the name asked for. */
  function NextEntry(m: seq<VarBind>, o: Oid): VarBind {
    if Beyond(m, o) == [] then VarBind(o, EndOfMibView) else Beyond(m, o)[0]
  }

  /** Every varbind is the successor of the one before it. */
  predicate Successors(m: seq<VarBind>, o: Oid, vbs: seq<VarBind>)
    decreases |vbs|
  {
    vbs == [] || (vbs[0] == NextEntry(m, o) && Successors(m, vbs[0].oid, vbs[1..]))
  }

  const MAX_REPETITIONS: nat := 20

  /** A GETBULK reply of any size from one to the repetitions asked for. */
  predicate BulkReply(m: seq<VarBind>, o: Oid, repetitions: int, reply: Reply) {
    reply.Ok? && 1 <= |reply.value| <= repetitions && Successors(m, o, reply.value)
  }

  const NO_SUCH_NAME: nat := 2

  /** A version 1 agent's only answer to GETNEXT: the successor, or the error noSuchName. */
  function NextReply(m: seq<VarBind>, o: Oid): Reply {
    if Beyond(m, o) == [] then Err(Snmp(NO_SUCH_NAME, 1)) else Ok([Beyond(m, o)[0]])
  }

  /** The entries strictly below `root`, in the order of the MIB. */
  function Subtree(m: seq<VarBind>, root: Oid): seq<VarBind> {
    if m == [] then []
    else (if Under(root, m[0].oid) && m[0].oid != root then [m[0]] else []) + Subtree(m[1..], root)
  }

  /** The entries of a subtree among those after `o`: a prefix of them, by contiguity. */
  function Pending(m: seq<VarBind>, root: Oid, o: Oid): seq<VarBind> {
    Taken(root, Beyond(m, o))
  }

  /** How the agent is asked: GETBULK, or a version 1 GETNEXT. */
  datatype Asking = Bulk | Single

  predicate Legal(how: Asking, m: seq<VarBind>, o: Oid, reply: Reply) {
    match how
    case Bulk => BulkReply(m, o, MAX_REPETITIONS, reply)
    case Single => reply == NextReply(m, o)
  }

  /** The agent answers every request from the MIB. */
  predicate Answers(how: Asking, m: seq<VarBind>, root: Oid, current: Oid, replies: seq<Reply>) {
    var asked := Requests(root, current, replies);
    forall i :: 0 <= i < |asked| && i < |replies| ==> Legal(how, m, asked[i], replies[i])
  }

  // ---- Facts about ordered MIBs ----

  /** What the order says of the first entry and of the rest. */
  lemma MibStep(m: seq<VarBind>)
    requires IsMib(m) && m != []
    ensures IsMib(m[1..]) && (|m| > 1 ==> Less(m[0].oid, m[1].oid))
  {
    hide Less;
  }

  lemma BeyondStep(m: seq<VarBind>, o: Oid)
    ensures Beyond(m, o) == if m == [] || Less(o, m[0].oid) then m else Beyond(m[1..], o)
  {
    hide Less;
  }

  lemma {:induction false} BeyondIsLater(m: seq<VarBind>, o: Oid)
    requires Beyond(m, o) != []
    ensures Less(o, Beyond(m, o)[0].oid)
  {
    hide Less;
    if !Less(o, m[0].oid) {
      BeyondIsLater(m[1..], o);
    }
  }

  /** After the first entry beyond `o` come the others beyond `o`. */
  lemma {:induction false} BeyondAdvances(m: seq<VarBind>, o: Oid)
    requires IsMib(m) && Beyond(m, o) != []
    ensures Beyond(m, Beyond(m, o)[0].oid) == Beyond(m, o)[1..]
  {
    hide IsMib, Beyond, Less;
    BeyondStep(m, o);
    MibStep(m);
    var next := Beyond(m, o)[0].oid;
    BeyondStep(m, next);
    if Less(o, m[0].oid) {
      LessIrreflexive(next);
      BeyondStep(m[1..], next);
    } else {
      BeyondAdvances(m[1..], o);
      BeyondIsLater(m, o);
      if Less(next, m[0].oid) {
        LessTransitive(o, next, m[0].oid);
      }
    }
  }

  lemma SubtreeStep(m: seq<VarBind>, root: Oid)
    requires m != []
    ensures Subtree(m, root)
         == (if Under(root, m[0].oid) && m[0].oid != root then [m[0]] else []) + Subtree(m[1..], root)
  {
    hide Under;
  }

  /** What lies strictly below `root` is exactly the initial run of what lies beyond it. */
  lemma {:induction false} SubtreeIsPending(m: seq<VarBind>, root: Oid)
    requires IsMib(m)
    ensures Subtree(m, root) == Pending(m, root, root)
  {
    hide IsMib, Beyond, Less, Under, Taken, Subtree;
    BeyondStep(m, root);
    if m == [] || Less(root, m[0].oid) {
      SubtreeOfLater(m, root);
    } else {
      MibStep(m);
      SubtreeStep(m, root);
      if Under(root, m[0].oid) && m[0].oid != root {
        ExtensionsFollow(root, m[0].oid);
      }
      SubtreeIsPending(m[1..], root);
    }
  }

  lemma UnderItself(root: Oid)
    ensures Under(root, root)
  {
  }

  lemma {:induction false} SubtreeOfLater(m: seq<VarBind>, root: Oid)
    requires IsMib(m) && (m != [] ==> Less(root, m[0].oid))
    ensures Subtree(m, root) == Taken(root, m)
  {
    hide Less, Under;
    if m != [] {
      MibStep(m);
      LessIrreflexive(root);
      if Under(root, m[0].oid) {
        if |m| > 1 {
          LessTransitive(root, m[0].oid, m[1].oid);
        }
        SubtreeOfLater(m[1..], root);
      } else {
        NothingReturns(m, root);
      }
    }
  }

  lemma {:induction false} NothingReturns(m: seq<VarBind>, root: Oid)
    requires IsMib(m) && m != [] && Less(root, m[0].oid) && !Under(root, m[0].oid)
    ensures Subtree(m, root) == []
  {
    hide IsMib, Less, Under;
    MibStep(m);
    if |m| > 1 {
      UnderItself(root);
      SubtreeContiguous(root, root, m[0].oid, m[1].oid);
      LessTransitive(root, m[0].oid, m[1].oid);
      NothingReturns(m[1..], root);
    } else {
      assert Subtree(m[1..], root) == [];
    }
  }

  // ---- The walk is exact ----

  lemma PendingAdvances(m: seq<VarBind>, root: Oid, o: Oid)
    requires IsMib(m)
    ensures var b := Beyond(m, o);
            Pending(m, root, o) == if b == [] || !Keeps(root, b[0]) then []
                                   else [b[0]] + Pending(m, root, b[0].oid)
  {
    hide Beyond, Keeps;
    if Beyond(m, o) != [] {
      BeyondAdvances(m, o);
    }
  }

  lemma TakenStep(root: Oid, vb: VarBind, vbs: seq<VarBind>)
    ensures Taken(root, [vb] + vbs) == if Keeps(root, vb) then [vb] + Taken(root, vbs) else []
  {
    assert ([vb] + vbs)[1..] == vbs;
  }

  /** One reply takes an initial part of what is pending and, when it stops the walk, all of it. */
  lemma {:induction false} ReplyTakesPending(m: seq<VarBind>, root: Oid, o: Oid, vbs: seq<VarBind>)
    requires IsMib(m) && Successors(m, o, vbs)
    ensures var t := Taken(root, vbs);
            && Pending(m, root, o) == t + Pending(m, root, Last(o, t))
            && (|t| < |vbs| ==> Pending(m, root, Last(o, t)) == [])
    decreases |vbs|
  {
    hide Keeps, Beyond, Pending, Taken;
    if vbs == [] {
      assert Taken(root, vbs) == [] by { TakenIsPrefix(root, vbs); }
    } else {
      var vb, vbs' := vbs[0], vbs[1..];
      assert vbs == [vb] + vbs';
      PendingAdvances(m, root, o);
      TakenStep(root, vb, vbs');
      if Beyond(m, o) == [] {
        MarkersAreDropped(root, o);
      } else if Keeps(root, vb) {
        ReplyTakesPending(m, root, vb.oid, vbs');
        var t' := Taken(root, vbs');
        LastOfConcat(o, [vb], t');
        assert [vb] + (t' + Pending(m, root, Last(vb.oid, t'))) == ([vb] + t') + Pending(m, root, Last(vb.oid, t'));
      }
    }
  }

  lemma MarkersAreDropped(root: Oid, o: Oid)
    ensures !Keeps(root, VarBind(o, EndOfMibView))
  {
  }

  lemma FirstAnswer(how: Asking, m: seq<VarBind>, root: Oid, current: Oid, replies: seq<Reply>)
    requires Answers(how, m, root, current, replies) && replies != []
    ensures Legal(how, m, current, replies[0])
  {
    assert Legal(how, m, Requests(root, current, replies)[0], replies[0]);
  }

  lemma AnswersTail(how: Asking, m: seq<VarBind>, root: Oid, current: Oid, replies: seq<Reply>)
    requires Answers(how, m, root, current, replies)
    requires replies != [] && GoesOn(root, replies[0])
    ensures Answers(how, m, root, Last(current, replies[0].value), replies[1..])
  {
    var asked := Requests(root, current, replies);
    var next := Last(current, replies[0].value);
    var more := Requests(root, next, replies[1..]);
    assert asked == [current] + more;
    forall i | 0 <= i < |more| && i < |replies[1..]|
      ensures Legal(how, m, more[i], replies[1..][i])
    {
      assert Legal(how, m, asked[i + 1], replies[i + 1]);
    }
  }

  lemma {:induction false} BulkWalkFrom(m: seq<VarBind>, root: Oid, current: Oid, replies: seq<Reply>)
    requires IsMib(m)
    requires Answers(Bulk, m, root, current, replies)
    requires |replies| > |Pending(m, root, current)|
    ensures Outcome(root, replies) == Ok(Pending(m, root, current))
    decreases |replies|
  {
    hide Taken, Pending, Last, Answers, Requests;
    FirstAnswer(Bulk, m, root, current, replies);
    var vbs := replies[0].value;
    var t := Taken(root, vbs);
    ReplyTakesPending(m, root, current, vbs);
    if GoesOn(root, replies[0]) {
      AnswersTail(Bulk, m, root, current, replies);
      BulkWalkFrom(m, root, Last(current, vbs), replies[1..]);
    } else {
      TakenIsPrefix(root, vbs);
      assert Pending(m, root, current) == t;
    }
  }

  /**
   Against an agent that answers GETBULK from an ordered MIB with batches of any size, the walk ends after
   at most one reply more than the subtree has entries, and returns the subtree: all of it, in order, once.
   */
  lemma BulkWalkIsExact(m: seq<VarBind>, root: Oid, replies: seq<Reply>)
    requires IsMib(m)
    requires Answers(Bulk, m, root, root, replies)
    requires |replies| > |Subtree(m, root)|
    ensures Outcome(root, replies) == Ok(Subtree(m, root))
  {
    SubtreeIsPending(m, root);
    BulkWalkFrom(m, root, root, replies);
  }

  lemma {:induction false} NextWalkFrom(m: seq<VarBind>, root: Oid, current: Oid, replies: seq<Reply>)
    requires IsMib(m)
    requires Answers(Single, m, root, current, replies)
    requires |replies| > |Pending(m, root, current)|
    ensures Outcome(root, replies)
         == if |Pending(m, root, current)| < |Beyond(m, current)| then Ok(Pending(m, root, current))
            else Err(Snmp(NO_SUCH_NAME, 1))
    decreases |replies|
  {
    hide Keeps, Beyond, Taken, Pending, GoesOn, Answers, Requests;
    FirstAnswer(Single, m, root, current, replies);
    var b := Beyond(m, current);
    PendingAdvances(m, root, current);
    if b != [] {
      BeyondAdvances(m, current);
      SingleReply(root, current, b[0]);
      if Keeps(root, b[0]) {
        AnswersTail(Single, m, root, current, replies);
        NextWalkFrom(m, root, b[0].oid, replies[1..]);
      }
    }
  }

  lemma SingleReply(root: Oid, current: Oid, vb: VarBind)
    ensures GoesOn(root, Ok([vb])) <==> Keeps(root, vb)
    ensures Taken(root, [vb]) == if Keeps(root, vb) then [vb] else []
  {
  }

  /**
   The version 1 walk returns the subtree exactly when the MIB has an entry after it; otherwise the agent's
   noSuchName is what the caller gets.
   */
  lemma NextWalkIsExact(m: seq<VarBind>, root: Oid, replies: seq<Reply>)
    requires IsMib(m)
    requires Answers(Single, m, root, root, replies)
    requires |replies| > |Subtree(m, root)|
    ensures Outcome(root, replies)
         == if |Subtree(m, root)| < |Beyond(m, root)| then Ok(Subtree(m, root)) else Err(Snmp(NO_SUCH_NAME, 1))
  {
    SubtreeIsPending(m, root);
    NextWalkFrom(m, root, root, replies);
  }

  /** Batch sizes do not matter, nor does asking one at a time as long as something follows the subtree. */
  lemma BatchesDoNotMatter(m: seq<VarBind>, root: Oid, bulk1: seq<Reply>, bulk2: seq<Reply>, singles: seq<Reply>)
    requires IsMib(m)
    requires Answers(Bulk, m, root, root, bulk1)
    requires Answers(Bulk, m, root, root, bulk2)
    requires Answers(Single, m, root, root, singles)
    requires |bulk1| > |m| && |bulk2| > |m| && |singles| > |m|
    ensures Outcome(root, bulk1) == Outcome(root, bulk2)
    ensures Outcome(root, singles) == Outcome(root, bulk1) <==> |Subtree(m, root)| < |Beyond(m, root)|
  {
    hide Outcome, Answers, Subtree, Beyond;
    SubtreeIsPending(m, root);
    TakenIsPrefix(root, Beyond(m, root));
    BulkWalkIsExact(m, root, bulk1);
    BulkWalkIsExact(m, root, bulk2);
    NextWalkIsExact(m, root, singles);
  }

  /** What a walk gives whose first request reaches the agent as `seen`. */
  function WalkedFrom(how: Asking, m: seq<VarBind>, root: Oid, seen: Oid): Reply {
    if how.Bulk? || |Pending(m, root, seen)| < |Beyond(m, seen)| then Ok(Pending(m, root, seen))
    else Err(Snmp(NO_SUCH_NAME, 1))
  }

  lemma WalkFrom(how: Asking, m: seq<VarBind>, root: Oid, seen: Oid, replies: seq<Reply>)
    requires IsMib(m)
    requires Answers(how, m, root, seen, replies)
    requires |replies| > |Pending(m, root, seen)|
    ensures Outcome(root, replies) == WalkedFrom(how, m, root, seen)
  {
    hide Outcome, Answers, Pending, Beyond;
    match how
    case Bulk => BulkWalkFrom(m, root, seen, replies);
    case Single => NextWalkFrom(m, root, seen, replies);
  }

  // ---- Where requests come from ----

  /** What the first request names has no influence on the later ones. */
  lemma FirstStandsApart(root: Oid, a: Oid, b: Oid, replies: seq<Reply>)
    ensures |Requests(root, a, replies)| == |Requests(root, b, replies)|
    ensures Requests(root, a, replies)[1..] == Requests(root, b, replies)[1..]
  {
  }

  /** Every later request names the last varbind of the reply before it. */
  lemma {:induction false} LaterRequest(root: Oid, current: Oid, replies: seq<Reply>, k: nat)
    requires 1 <= k < |Requests(root, current, replies)|
    ensures k <= |replies| && GoesOn(root, replies[k - 1])
    ensures Requests(root, current, replies)[k] == Last(current, replies[k - 1].value)
    decreases k
  {
    hide Taken;
    if k > 1 {
      var next := Last(current, replies[0].value);
      assert Requests(root, current, replies)[k] == Requests(root, next, replies[1..])[k - 1];
      LaterRequest(root, next, replies[1..], k - 1);
    }
  }

  lemma FirstIsEntry(m: seq<VarBind>, o: Oid)
    requires !NextEntry(m, o).value.IsException()
    ensures NextEntry(m, o) in m
  {
    assert Beyond(m, o)[0] in m;
  }

  lemma {:induction false} SuccessorIsEntry(m: seq<VarBind>, o: Oid, vbs: seq<VarBind>)
    requires Successors(m, o, vbs) && vbs != [] && !vbs[|vbs| - 1].value.IsException()
    ensures vbs[|vbs| - 1] in m
    decreases |vbs|
  {
    hide NextEntry, Beyond;
    if |vbs| == 1 {
      FirstIsEntry(m, o);
    } else {
      SuccessorIsEntry(m, vbs[0].oid, vbs[1..]);
    }
  }

  /** After a legal reply the walk asks for an entry of the MIB that this reply brought. */
  lemma AskedIsEntry(how: Asking, m: seq<VarBind>, root: Oid, current: Oid, replies: seq<Reply>, k: nat)
    requires 1 <= k < |Requests(root, current, replies)| && k <= |replies|
    requires Legal(how, m, Requests(root, current, replies)[k - 1], replies[k - 1])
    ensures replies[k - 1].Ok?
    ensures exists vb :: vb in m && vb in replies[k - 1].value && vb.oid == Requests(root, current, replies)[k]
  {
    hide Requests, Beyond, Successors;
    LaterRequest(root, current, replies, k);
    var vbs := replies[k - 1].value;
    var o, last := Requests(root, current, replies)[k - 1], vbs[|vbs| - 1];
    TakenIsPrefix(root, vbs);
    if how.Bulk? {
      SuccessorIsEntry(m, o, vbs);
    } else {
      assert last == Beyond(m, o)[0];
    }
    assert last in m && last in vbs;
  }

  // ---- The loops of both clients ----

  /** What was collected already, in front of what the remaining replies give. */
  function Following(done: seq<VarBind>, more: Reply): Reply {
    if more.Err? then more else Ok(done + more.value)
  }

  /** The inner loop of both walks: keep varbinds until one leaves the subtree or is a marker. */
  method Collect(root: Oid, varbinds: seq<VarBind>, current: Oid, results: seq<VarBind>)
    returns (next: Oid, collected: seq<VarBind>, done: bool)
    ensures collected == results + Taken(root, varbinds)
    ensures next == Last(current, Taken(root, varbinds))
    ensures done <==> Taken(root, varbinds) != varbinds
  {
    hide Taken;
    next, collected, done := current, results, false;
    for i := 0 to |varbinds|
      invariant !done && collected == results + varbinds[..i] && next == Last(current, varbinds[..i])
      invariant Taken(root, varbinds) == varbinds[..i] + Taken(root, varbinds[i..])
    {
      var vb := varbinds[i];
      assert varbinds[i..] == [vb] + varbinds[i + 1..] && varbinds[..i + 1] == varbinds[..i] + [vb];
      TakenStep(root, vb, varbinds[i + 1..]);
      if |vb.oid| < |root| || vb.oid[..|root|] != root {
        done := true;
        assert Taken(root, varbinds) == varbinds[..i];
        break;
      }
      if vb.value.IsException() {
        done := true;
        assert Taken(root, varbinds) == varbinds[..i];
        break;
      }
      next := vb.oid;
      collected := collected + [vb];
    }
    if !done {
      assert varbinds[..|varbinds|] == varbinds;
      TakenIsPrefix(root, varbinds);
    }
  }

  lemma FollowingNothing(more: Reply)
    ensures Following([], more) == more
  {
    if more.Ok? {
      assert [] + more.value == more.value;
    }
  }

  lemma FollowingEnds(done: seq<VarBind>, last: Reply)
    ensures Following(done, last) == if last.Err? then last else Ok(done + last.value)
    ensures last == Ok([]) ==> Following(done, last) == Ok(done)
  {
    assert done + [] == done;
  }

  lemma FollowingMore(done: seq<VarBind>, vbs: seq<VarBind>, more: Reply)
    ensures Following(done + vbs, more) == Following(done, Following(vbs, more))
  {
    if more.Ok? {
      assert done + (vbs + more.value) == done + vbs + more.value;
    }
  }

  function FirstReply(replies: seq<Reply>): Reply {
    if replies == [] then Err(Timeout) else replies[0]
  }

  function LaterReplies(replies: seq<Reply>): seq<Reply> {
    if replies == [] then [] else replies[1..]
  }

  /** One round of either walk, on its specification. */
  lemma Round(root: Oid, current: Oid, replies: seq<Reply>)
    ensures var reply, later := FirstReply(replies), LaterReplies(replies);
            && (reply.Err? ==> Outcome(root, replies) == Err(reply.error))
            && (reply == Ok([]) ==> Outcome(root, replies) == Ok([]))
            && (reply.Ok? && !GoesOn(root, reply) ==> Outcome(root, replies) == Ok(Taken(root, reply.value)))
            && (!GoesOn(root, reply) ==> Requests(root, current, replies) == [current])
            && (GoesOn(root, reply) ==>
                  && replies != []
                  && Outcome(root, replies) == Following(reply.value, Outcome(root, later))
                  && Requests(root, current, replies) == [current] + Requests(root, Last(current, reply.value), later))
  {
    hide Last;
  }
}
