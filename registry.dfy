/** The membership registry: the set of peers this process currently believes in. */
module Registry {
  import opened Nodes

  class NodeRegistry {
    /** The members; a set, so adding a member twice keeps one copy. */
    var nodes: set<NodeInfo>

    constructor ()
      ensures nodes == {}
    {
      nodes := {};
    }

    /** Puts `node` in the set; adding a member already present changes nothing. */
    method Add(node: NodeInfo)
      modifies this
      ensures nodes == old(nodes) + {node}
      ensures old(nodes) <= nodes
      ensures node in old(nodes) ==> nodes == old(nodes)
    {
      nodes := nodes + {node};
    }

    /**
     * Unions a view into the set. Once every member of `others` is present the call
     * changes nothing, so applying the same view twice equals applying it once.
     */
    method AddAll(others: seq<NodeInfo>)
      modifies this
      ensures nodes == old(nodes) + (set n | n in others)
      ensures old(nodes) <= nodes
      ensures (forall n | n in others :: n in old(nodes)) ==> nodes == old(nodes)
    {
      nodes := nodes + (set n | n in others);
    }

    /**
     * `List.copyOf(nodes)`: every current member exactly once, in the order the
     * underlying concurrent set happens to iterate (left unspecified here).
     */
    method Snapshot() returns (s: seq<NodeInfo>)
      ensures IsSnapshotOf(s, nodes)
      ensures |s| == |nodes|
    {
      s := [];
      var rest := nodes;
      while rest != {}
        invariant rest <= nodes
        invariant forall n :: n in s <==> n in nodes && n !in rest
        invariant NoDuplicates(s)
        invariant |s| + |rest| == |nodes|
        decreases rest
      {
        var n :| n in rest;
        assert n !in s;
        s := s + [n];
        rest := rest - {n};
      }
    }

    /** Takes `node` out; every other member stays, and a non-member changes nothing. */
    method Remove(node: NodeInfo)
      modifies this
      ensures nodes == old(nodes) - {node}
      ensures nodes <= old(nodes)
      ensures node !in old(nodes) ==> nodes == old(nodes)
    {
      nodes := nodes - {node};
    }
  }
}
