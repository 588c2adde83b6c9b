/** The identity of a cluster process and the lists of members passed around. */
module Nodes {

  /** `NodeInfo {host, port}`: equal exactly when both host and port are equal. */
  datatype NodeInfo = NodeInfo(host: string, port: int)

  /** `ChatMessage {text, fromHost, fromPort}`; the timestamp is not modelled. */
  datatype ChatMessage = ChatMessage(text: string, fromHost: string, fromPort: int)

  /** No member occurs twice in the list. */
  ghost predicate NoDuplicates<T>(s: seq<T>) {
    forall x | x in s :: multiset(s)[x] == 1
  }

  /** `s` is a point-in-time copy of the set `nodes`, in some order, each member once. */
  ghost predicate IsSnapshotOf(s: seq<NodeInfo>, nodes: set<NodeInfo>) {
    && (forall n :: n in s <==> n in nodes)
    && NoDuplicates(s)
  }
}
