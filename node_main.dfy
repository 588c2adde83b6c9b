/**
 * The node process: the leader's text commands (SET with round-robin replication,
 * GET with fallback over the recorded holders, chat broadcast), the startup
 * discovery of earlier nodes and one round of the periodic health check.
 */
module Leader {
  import opened Optional
  import opened JavaString
  import opened Nodes
  import opened Registry
  import opened Replication
  import opened ClientProtocol

  /** The first port a node tries, and the port whose node becomes the leader. */
  const StartPort := 5555

  const OkReply := "OK"
  const NoHolderReply := "NOT_FOUND (Yazilacak uygun dugum bulunamadi)"
  const NotFoundReply := "NOT_FOUND"
  const BroadcastReply := "BROADCAST_SENT"

  /** The reply to a GET: the text after "OK ", or "NOT_FOUND". */
  function GetReply(found: Option<string>): (reply: string)
    ensures found.Some? ==> reply == OkReply + " " + found.value
    ensures found.None? ==> reply == NotFoundReply
  {
    match found
    case Some(text) => OkReply + " " + text
    case None => NotFoundReply
  }

  /** A chat broadcast: the message and the members it was sent to, in order. */
  datatype Chat = Chat(message: ChatMessage, targets: seq<NodeInfo>)

  /** The members other than `self` (same host and same port), in list order. */
  function OtherMembers(members: seq<NodeInfo>, self: NodeInfo): (r: seq<NodeInfo>)
    ensures forall n :: n in r <==> n in members && n != self
  {
    if members == [] then []
    else
      var last := members[|members| - 1];
      assert members == members[..|members| - 1] + [last];
      OtherMembers(members[..|members| - 1], self) + (if last != self then [last] else [])
  }

  class NodeMain {
    const self: NodeInfo
    const registry: NodeRegistry
    /** `TOLERANCE`: the replication factor, read once at startup. */
    const tolerance: int
    /** `requestCounter`: one tick per SET that found candidates (unbounded here, see Findings). */
    var requestCounter: nat
    /** `messageLocations`: for each id, the holders of its latest successful SET. */
    var messageLocations: map<Int32, seq<NodeInfo>>

    /**
     * A placement a SET may record: non-empty, within the tolerance, free of
     * duplicates, and made only of nodes on ports other than this node's.
     */
    ghost predicate ValidPlacement(placed: seq<NodeInfo>) {
      && placed != []
      && (tolerance >= 0 ==> |placed| <= tolerance)
      && NoDuplicates(placed)
      && forall n | n in placed :: n.port != self.port
    }

    /** Every recorded placement is one a SET may record. */
    ghost predicate Valid()
      reads this
    {
      forall id | id in messageLocations :: ValidPlacement(messageLocations[id])
    }

    /** The holders recorded for `id`, none when the id was never placed. */
    function HoldersOf(id: Int32): (holders: seq<NodeInfo>)
      reads this
      ensures id !in messageLocations ==> holders == []
    {
      if id in messageLocations then messageLocations[id] else []
    }

    constructor (self: NodeInfo, registry: NodeRegistry, tolerance: int)
      ensures this.self == self && this.registry == registry && this.tolerance == tolerance
      ensures requestCounter == 0 && messageLocations == map[]
      ensures Valid()
    {
      this.self := self;
      this.registry := registry;
      this.tolerance := tolerance;
      requestCounter := 0;
      messageLocations := map[];
    }

    /**
     * The walk of SET: visits candidate `(start + i) mod |candidates|` for
     * i = 0, 1, …, stopping once `tolerance` Store calls have succeeded, and returns
     * the nodes that accepted, in visiting order.
     */
    method Walk(candidates: seq<NodeInfo>, start: nat, store: NodeInfo -> bool) returns (successful: seq<NodeInfo>)
      requires start < |candidates|
      ensures successful == Take(Successes(Rotate(candidates, start), store), tolerance)
    {
      ghost var walk := Rotate(candidates, start);
      successful := [];
      var sent := 0;
      var i := 0;
      while i < |candidates|
        invariant 0 <= i <= |candidates|
        invariant successful == Successes(walk[..i], store)
        invariant sent == |successful|
        invariant tolerance <= 0 ==> i == 0
        invariant tolerance > 0 ==> sent <= tolerance
      {
        if sent >= tolerance {
          WalkStopsAtTolerance(walk, i, tolerance, store);
          return;
        }
        var target := candidates[(start + i) % |candidates|];
        RotateAt(candidates, start, i);
        assert walk[..i + 1][..i] == walk[..i];
        if store(target) {
          successful := successful + [target];
          sent := sent + 1;
        }
        i := i + 1;
      }
      assert walk[..i] == walk;
    }

    /**
     * The replication phase of SET: with candidates, the counter ticks once and the
     * walk from `counter mod |candidates|` collects up to `tolerance` nodes that
     * accept the record; without, nothing is tried. `store` says which Store calls
     * succeed.
     */
    method Replicate(candidates: seq<NodeInfo>, store: NodeInfo -> bool) returns (successful: seq<NodeInfo>)
      modifies this
      ensures requestCounter == old(requestCounter) + (if candidates == [] then 0 else 1)
      ensures successful == Placement(candidates, old(requestCounter), tolerance, store)
      ensures messageLocations == old(messageLocations)
    {
      successful := [];
      if candidates != [] {
        var start := StartIndex(requestCounter, |candidates|);
        requestCounter := requestCounter + 1;
        successful := Walk(candidates, start, store);
      }
    }

    /**
     * The outcome phase of SET: a non-empty placement is recorded for the id
     * (replacing an earlier one) and answered OK; an empty one is answered with the
     * no-holder reply and leaves the locations alone.
     */
    method Record(id: Int32, successful: seq<NodeInfo>) returns (reply: string)
      requires Valid()
      requires successful != [] ==> ValidPlacement(successful)
      modifies this
      ensures Valid()
      ensures requestCounter == old(requestCounter)
      ensures successful == [] ==> reply == NoHolderReply && messageLocations == old(messageLocations)
      ensures successful != [] ==> reply == OkReply && messageLocations == old(messageLocations)[id := successful]
    {
      if successful == [] {
        reply := NoHolderReply;
      } else {
        messageLocations := messageLocations[id := successful];
        reply := OkReply;
      }
    }

    /**
     * SET: the candidates are the snapshot members on other ports, by ascending port;
     * the record is replicated to up to `tolerance` of them and the outcome recorded.
     */
    method Set(id: Int32, message: string, store: NodeInfo -> bool) returns (reply: string, ghost snapshot: seq<NodeInfo>)
      requires Valid()
      modifies this
      ensures Valid()
      ensures IsSnapshotOf(snapshot, registry.nodes)
      ensures var candidates := Candidates(snapshot, self);
              var placed := Placement(candidates, old(requestCounter), tolerance, store);
        && requestCounter == old(requestCounter) + (if candidates == [] then 0 else 1)
        && (placed == [] ==> reply == NoHolderReply && messageLocations == old(messageLocations))
        && (placed != [] ==> reply == OkReply && messageLocations == old(messageLocations)[id := placed])
    {
      var members := registry.Snapshot();
      snapshot := members;
      var candidates := Candidates(members, self);
      assert Placement(candidates, requestCounter, tolerance, store) != [] ==>
             ValidPlacement(Placement(candidates, requestCounter, tolerance, store)) by {
        PlacementSound(candidates, requestCounter, tolerance, store);
      }
      var successful := Replicate(candidates, store);
      reply := Record(id, successful);
    }

    /**
     * GET: asks the recorded holders of `id` in order and answers with the first text
     * found; no recorded holders, or none that finds it, answers NOT_FOUND.
     * `retrieve` gives each holder's Retrieve answer for this id.
     */
    method Get(id: Int32, retrieve: NodeInfo -> Option<string>) returns (reply: string)
      ensures reply == GetReply(FirstFound(HoldersOf(id), retrieve))
    {
      var result: Option<string> := None;
      if id in messageLocations {
        var locations := messageLocations[id];
        var i := 0;
        while i < |locations|
          invariant 0 <= i <= |locations|
          invariant result.None?
          invariant FirstFound(locations[i..], retrieve) == FirstFound(locations, retrieve)
        {
          result := retrieve(locations[i]);
          if result.Some? {
            break;
          }
          assert locations[i..][1..] == locations[i + 1..];
          i := i + 1;
        }
      }
      if result.Some? {
        reply := OkReply + " " + result.value;
      } else {
        reply := NotFoundReply;
      }
    }

    /**
     * Sends `message` to every member of a snapshot except this node itself, once
     * each; a member that cannot be reached does not stop the loop. Returns every
     * member a send was tried to, reached or not.
     */
    method BroadcastToFamily(message: ChatMessage) returns (targets: seq<NodeInfo>, ghost snapshot: seq<NodeInfo>)
      ensures IsSnapshotOf(snapshot, registry.nodes)
      ensures targets == OtherMembers(snapshot, self)
      ensures forall n :: n in targets <==> n in registry.nodes && n != self
    {
      var members := registry.Snapshot();
      snapshot := members;
      targets := [];
      var i := 0;
      while i < |members|
        invariant 0 <= i <= |members|
        invariant targets == OtherMembers(members[..i], self)
      {
        var n := members[i];
        assert members[..i + 1][..i] == members[..i];
        if !(n.host == self.host && n.port == self.port) {
          targets := targets + [n];
        }
        i := i + 1;
      }
      assert members[..i] == members;
    }

    /**
     * One line from a client connection: blank lines and malformed SET/GET lines get
     * no reply and change nothing; SET and GET behave as above; anything else is
     * broadcast as a chat from this node and answered BROADCAST_SENT.
     */
    method HandleLine(line: string, store: NodeInfo -> bool, retrieve: NodeInfo -> Option<string>)
      returns (reply: Option<string>, chat: Option<Chat>, ghost snapshot: seq<NodeInfo>)
      requires Valid()
      modifies this
      ensures Valid()
      ensures IsSnapshotOf(snapshot, registry.nodes) || reply.None? || ParseCommand(line).GetCommand?
      ensures ParseCommand(line).Blank? || ParseCommand(line).Malformed? ==>
        reply.None? && chat.None? &&
        requestCounter == old(requestCounter) && messageLocations == old(messageLocations)
      ensures ParseCommand(line).SetCommand? ==>
        var cmd := ParseCommand(line);
        var candidates := Candidates(snapshot, self);
        var placed := Placement(candidates, old(requestCounter), tolerance, store);
        && chat.None?
        && requestCounter == old(requestCounter) + (if candidates == [] then 0 else 1)
        && (placed == [] ==> reply == Some(NoHolderReply) && messageLocations == old(messageLocations))
        && (placed != [] ==> reply == Some(OkReply) && messageLocations == old(messageLocations)[cmd.id := placed])
      ensures ParseCommand(line).GetCommand? ==>
        && reply == Some(GetReply(FirstFound(old(HoldersOf(ParseCommand(line).id)), retrieve)))
        && chat.None?
        && requestCounter == old(requestCounter) && messageLocations == old(messageLocations)
      ensures ParseCommand(line).ChatCommand? ==>
        && reply == Some(BroadcastReply)
        && chat == Some(Chat(ChatMessage(Trim(line), self.host, self.port), OtherMembers(snapshot, self)))
        && requestCounter == old(requestCounter) && messageLocations == old(messageLocations)
    {
      chat := None;
      snapshot := [];
      match ParseCommand(line)
      case Blank =>
        reply := None;
      case Malformed =>
        reply := None;
      case SetCommand(id, message) =>
        var r;
        r, snapshot := Set(id, message, store);
        reply := Some(r);
      case GetCommand(id) =>
        var r := Get(id, retrieve);
        reply := Some(r);
      case ChatCommand(text) =>
        var message := ChatMessage(text, self.host, self.port);
        var targets;
        targets, snapshot := BroadcastToFamily(message);
        chat := Some(Chat(message, targets));
        reply := Some(BroadcastReply);
    }

    /**
     * One round of the health check: every member of a snapshot other than this node
     * is probed with GetFamily, and each one the probe fails for is removed. This
     * node and every member that answers stay.
     */
    method CheckHealth(probe: NodeInfo -> bool)
      modifies registry
      ensures forall n :: n in registry.nodes <==> n in old(registry.nodes) && (n == self || probe(n))
    {
      var members := registry.Snapshot();
      var i := 0;
      while i < |members|
        invariant 0 <= i <= |members|
        invariant forall n :: n in registry.nodes <==>
          n in old(registry.nodes) && !(n in members[..i] && n != self && !probe(n))
      {
        var n := members[i];
        assert members[..i + 1] == members[..i] + [n];
        if !(n.host == self.host && n.port == self.port) {
          if !probe(n) {
            registry.Remove(n);
          }
        }
        i := i + 1;
      }
      assert members[..i] == members;
    }

    /**
     * Startup discovery: for every port from 5555 up to (not including) this node's,
     * sends Join and unions the returned view into the registry; a port that does not
     * answer is skipped. `join` gives each port's answer.
     */
    method DiscoverExistingNodes(join: int -> Option<seq<NodeInfo>>)
      modifies registry
      ensures registry.nodes == old(registry.nodes) + JoinedViews(StartPort, self.port, join)
    {
      var port := StartPort;
      while port < self.port
        invariant StartPort <= port
        invariant port <= self.port || port == StartPort
        invariant registry.nodes == old(registry.nodes) + JoinedViews(StartPort, port, join)
      {
        var view := join(port);
        if view.Some? {
          registry.AddAll(view.value);
        }
        port := port + 1;
      }
    }
  }

  /**
   * SET then GET of the same id: when every node that accepts the Store answers
   * Retrieve with the message, a SET answered OK is followed by a GET answered
   * "OK <message>"; a SET not answered OK was answered with the no-holder reply.
   */
  method SetThenGet(node: NodeMain, id: Int32, message: string,
                    store: NodeInfo -> bool, retrieve: NodeInfo -> Option<string>)
    returns (setReply: string, getReply: string)
    requires node.Valid()
    requires forall n | store(n) :: retrieve(n) == Some(message)
    modifies node
    ensures setReply == OkReply ==> getReply == OkReply + " " + message
    ensures setReply != OkReply ==> setReply == NoHolderReply
  {
    ghost var counter := node.requestCounter;
    ghost var snapshot;
    setReply, snapshot := node.Set(id, message, store);
    getReply := node.Get(id, retrieve);
    if setReply == OkReply {
      var candidates := Candidates(snapshot, node.self);
      PlacementSound(candidates, counter, node.tolerance, store);
      var holders := node.HoldersOf(id);
      assert holders != [] && holders[0] in holders;
    }
  }
}
