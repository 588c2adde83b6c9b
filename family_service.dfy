/**
 * The handlers every node serves to its peers: Join, GetFamily, Store, Retrieve and
 * GetCount, over the node's registry and its (buffered) storage engine.
 */
module FamilyService {
  import opened Optional
  import opened JavaString
  import opened Nodes
  import opened Registry
  import opened StorageFiles
  import opened BufferedStorage

  /** `StoredMessage {id, text, found}`: the Store request and the Retrieve reply. */
  datatype StoredMessage = StoredMessage(id: Int32, text: string, found: bool)

  class FamilyServiceImpl {
    const registry: NodeRegistry
    const self: NodeInfo
    const storage: BufferedStorageService

    /** The service registers its own node as soon as it exists. */
    constructor (registry: NodeRegistry, self: NodeInfo, storage: BufferedStorageService)
      modifies registry
      ensures this.registry == registry && this.self == self && this.storage == storage
      ensures registry.nodes == old(registry.nodes) + {self}
    {
      this.registry := registry;
      this.self := self;
      this.storage := storage;
      new;
      registry.Add(self);
    }

    /** Stores the record locally and always answers success, whatever the disk did. */
    method Store(request: StoredMessage, writeOk: bool) returns (success: bool)
      modifies storage, storage.dir
      ensures success
      ensures storage.memory == old(storage.memory)[request.id := request.text]
      ensures storage.dir.files ==
        if writeOk then old(storage.dir.files)[FileName(request.id) := request.text] else old(storage.dir.files)
    {
      storage.Put(request.id, request.text, writeOk);
      success := true;
    }

    /**
     * Looks the id up in storage: a text becomes `found = true` with that text, a null
     * becomes `found = false` with the empty text; the id is echoed either way.
     */
    method Retrieve(id: Int32, readOk: bool) returns (reply: StoredMessage)
      modifies storage
      ensures reply.id == id
      ensures reply.found <==> old(storage.Lookup(id, readOk)).Some?
      ensures reply.found ==> reply.text == old(storage.Lookup(id, readOk)).value
      ensures !reply.found ==> reply.text == ""
      ensures id in old(storage.memory) || !reply.found ==> storage.memory == old(storage.memory)
      ensures id !in old(storage.memory) && reply.found ==> storage.memory == old(storage.memory)[id := reply.text]
    {
      var message := storage.Get(id, readOk);
      if message.Some? {
        reply := StoredMessage(id, message.value, true);
      } else {
        reply := StoredMessage(id, "", false);
      }
    }

    /**
     * Registers the caller and answers with the view after that: it holds the caller,
     * and this node too whenever this node is registered.
     */
    method Join(request: NodeInfo) returns (view: seq<NodeInfo>)
      modifies registry
      ensures registry.nodes == old(registry.nodes) + {request}
      ensures IsSnapshotOf(view, registry.nodes)
      ensures request in view
      ensures self in old(registry.nodes) ==> self in view
    {
      registry.Add(request);
      view := registry.Snapshot();
    }

    /** The current view; neither the registry nor storage changes. */
    method GetFamily() returns (view: seq<NodeInfo>)
      ensures IsSnapshotOf(view, registry.nodes)
    {
      view := registry.Snapshot();
    }

    /** A chat from the leader is only logged: neither the registry nor storage changes. */
    method ReceiveChat(request: ChatMessage)
      ensures registry.nodes == old(registry.nodes)
      ensures storage.memory == old(storage.memory) && storage.dir.files == old(storage.dir.files)
    {
    }

    /** The storage engine's count of distinct ids, passed through unchanged. */
    method GetCount() returns (count: nat)
      ensures count == |storage.memory|
    {
      count := storage.GetCount();
    }
  }
}
