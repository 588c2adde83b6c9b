/**
 * The unbuffered storage engine: the same in-memory id → text map and one file per
 * id, but a disk read takes the file's raw contents instead of its lines.
 */
module UnbufferedStorage {
  import opened Optional
  import opened JavaString
  import opened StorageFiles

  class UnbufferedStorageService {
    /** The node's `messages_<port>` directory. */
    const dir: Directory
    /** `memoryMap`: authoritative once an id is in it. */
    var memory: map<Int32, string>

    /** Opens the directory and loads every correctly named file into memory. */
    constructor (dir: Directory, readable: string -> bool)
      ensures this.dir == dir
      ensures Recovered(memory, dir.files, readable)
    {
      var loaded := LoadFromDiskToMemory(dir.files, readable);
      this.dir := dir;
      memory := loaded;
    }

    /** Number of distinct ids held in memory. */
    method GetCount() returns (count: nat)
      ensures count == |memory|
    {
      count := |memory|;
    }

    /**
     * Overwrites the memory entry, then truncates and rewrites the id's file. A failed
     * write (`writeOk` false: the file could not be opened) is swallowed: memory is
     * updated all the same and the file is left as it was.
     */
    method Put(id: Int32, message: string, writeOk: bool)
      modifies this, dir
      ensures memory == old(memory)[id := message]
      ensures |memory| == |old(memory)| + (if id in old(memory) then 0 else 1)
      ensures dir.files == if writeOk then old(dir.files)[FileName(id) := message] else old(dir.files)
    {
      memory := memory[id := message];
      if writeOk {
        dir.files := dir.files[FileName(id) := message];
      }
    }

    /** What `get(id)` answers: memory first, then the id's raw file contents. */
    ghost function Lookup(id: Int32, readOk: bool): Option<string>
      reads this, dir
    {
      if id in memory then Some(memory[id])
      else if FileName(id) !in dir.files || !readOk then None
      else Some(Trim(dir.files[FileName(id)]))
    }

    /**
     * A memory hit returns the cached text untouched. On a miss the id's file, if it
     * exists and reads (`readOk`), is read whole, trimmed, cached and returned; a
     * missing file or a failed read returns null (None) and caches nothing.
     */
    method Get(id: Int32, readOk: bool) returns (r: Option<string>)
      modifies this
      ensures r == old(Lookup(id, readOk))
      ensures id !in old(memory) && r.Some? ==> memory == old(memory)[id := r.value]
      ensures id in old(memory) || r.None? ==> memory == old(memory)
    {
      if id in memory {
        return Some(memory[id]);
      }
      var name := FileName(id);
      if name !in dir.files || !readOk {
        return None;
      }
      var data := dir.files[name];
      var result := Trim(data);
      memory := memory[id := result];
      r := Some(result);
    }
  }

  /** Warm round trip: right after `put(id, m)`, `get(id)` returns exactly `m`, untrimmed. */
  method WarmRoundTrip(s: UnbufferedStorageService, id: Int32, message: string, writeOk: bool, readOk: bool)
    returns (r: Option<string>)
    modifies s, s.dir
    ensures r == Some(message)
  {
    s.Put(id, message, writeOk);
    r := s.Get(id, readOk);
  }

  /**
   * `put(id, a); put(id, b)` leaves `b` for `id` and every other id as it was,
   * whether or not either file write succeeded.
   */
  method Overwrite(s: UnbufferedStorageService, id: Int32, first: string, second: string,
                   firstWriteOk: bool, secondWriteOk: bool, readOk: bool)
    returns (r: Option<string>)
    modifies s, s.dir
    ensures r == Some(second)
    ensures forall other | other != id :: (other in s.memory <==> other in old(s.memory))
    ensures forall other | other != id && other in s.memory :: s.memory[other] == old(s.memory)[other]
  {
    s.Put(id, first, firstWriteOk);
    s.Put(id, second, secondWriteOk);
    r := s.Get(id, readOk);
  }

  /** Once a disk read has filled the cache, later gets answer the same text from memory. */
  method RepeatedGet(s: UnbufferedStorageService, id: Int32, readOk: bool, laterReadOk: bool)
    returns (first: Option<string>, later: Option<string>)
    modifies s
    ensures first.Some? ==> later == first
  {
    first := s.Get(id, readOk);
    later := s.Get(id, laterReadOk);
  }

  /**
   * Cold restart: a put whose file write succeeded, then a fresh engine over the same
   * directory, answers `trim(m)` for the id.
   */
  method ColdRestart(dir: Directory, readable: string -> bool, id: Int32, message: string, readOk: bool)
    returns (r: Option<string>)
    requires Canonical(dir.files) && readable(FileName(id))
    modifies dir
    ensures r == Some(Trim(message))
  {
    ghost var before := dir.files;
    var first := new UnbufferedStorageService(dir, readable);
    first.Put(id, message, true);
    var second := new UnbufferedStorageService(dir, readable);
    ColdRestartAfterPut(before, readable, second.memory, id, message);
    r := second.Get(id, readOk);
  }
}
