/**
 * What the two storage engines share: the on-disk layout (one file per id, named
 * with the id's decimal form and ".msg", in the node's `messages_<port>` directory)
 * and the startup scan that reloads those files.
 */
module StorageFiles {
  import opened Optional
  import opened JavaString

  const Suffix: string := ".msg"

  /** A node's storage directory: file name to file contents. */
  class Directory {
    var files: map<string, string>

    constructor (files: map<string, string>)
      ensures this.files == files
    {
      this.files := files;
    }
  }

  /** `id + ".msg"`: the file `put(id, …)` writes. */
  function FileName(id: Int32): string {
    IntToString(id) + Suffix
  }

  /** The id the startup scan reads from a file name: `Integer.parseInt(name.replace(".msg", ""))`. */
  function StemId(name: string): Option<Int32> {
    ParseInt(RemoveAll(name, Suffix))
  }

  /** The file name of an id ends with ".msg" and its stem parses back to that id. */
  lemma FileNameRoundTrip(id: Int32)
    ensures EndsWith(FileName(id), Suffix)
    ensures StemId(FileName(id)) == Some(id)
  {
    var stem := IntToString(id);
    assert FileName(id)[|stem|..] == Suffix;
    assert '.' !in stem by {
      forall i | 0 <= i < |stem| ensures stem[i] != '.' { }
    }
    RemoveAllSuffix(stem, Suffix);
    ParseIntToString(id);
  }

  /** A file the startup scan loads: listed with the suffix, an int stem, and readable. */
  predicate Loadable(files: map<string, string>, readable: string -> bool, f: string) {
    f in files && EndsWith(f, Suffix) && StemId(f).Some? && readable(f)
  }

  /**
   * What the startup scan leaves in memory: an entry for the id of every loadable
   * file and for nothing else, each holding the trimmed contents of one loadable
   * file with that id (which one, when several names parse to the same id, depends
   * on the unspecified listing order).
   */
  ghost predicate Recovered(memory: map<Int32, string>, files: map<string, string>, readable: string -> bool) {
    && (forall f | Loadable(files, readable, f) :: StemId(f).value in memory)
    && (forall id | id in memory ::
          exists f :: Loadable(files, readable, f) && StemId(f) == Some(id) && memory[id] == Trim(files[f]))
  }

  /** Every loadable file among `done` has its id in memory. */
  ghost predicate Covers(memory: map<Int32, string>, files: map<string, string>, readable: string -> bool, done: set<string>) {
    forall f | f in done && Loadable(files, readable, f) :: StemId(f).value in memory
  }

  /** Every entry in memory holds the trimmed contents of a loadable file among `done` with that id. */
  ghost predicate Sourced(memory: map<Int32, string>, files: map<string, string>, readable: string -> bool, done: set<string>) {
    forall id | id in memory ::
      exists f :: f in done && Loadable(files, readable, f) && StemId(f) == Some(id) && memory[id] == Trim(files[f])
  }

  /** Trying one more listed file keeps both halves of the scan's invariant. */
  lemma LoadStep(memory: map<Int32, string>, files: map<string, string>, readable: string -> bool,
                 done: set<string>, f: string, next: map<Int32, string>)
    requires Covers(memory, files, readable, done) && Sourced(memory, files, readable, done)
    requires f in files && EndsWith(f, Suffix)
    requires next == if StemId(f).Some? && readable(f) then memory[StemId(f).value := Trim(files[f])] else memory
    ensures Covers(next, files, readable, done + {f}) && Sourced(next, files, readable, done + {f})
  {
    forall id | id in next
      ensures exists g :: g in done + {f} && Loadable(files, readable, g) && StemId(g) == Some(id) && next[id] == Trim(files[g])
    {
      if StemId(f).Some? && readable(f) && id == StemId(f).value {
        assert Loadable(files, readable, f);
      } else {
        var g :| g in done && Loadable(files, readable, g) && StemId(g) == Some(id) && memory[id] == Trim(files[g]);
        assert g in done + {f};
      }
    }
  }

  /**
   * `loadFromDiskToMemory`, shared by both engines: every listed name ending in
   * ".msg" is tried, in an unspecified order; a stem that does not parse or a read
   * that fails skips the file; otherwise the trimmed contents go into memory.
   */
  method LoadFromDiskToMemory(files: map<string, string>, readable: string -> bool)
    returns (memory: map<Int32, string>)
    ensures Recovered(memory, files, readable)
  {
    memory := map[];
    var pending := set f | f in files && EndsWith(f, Suffix);
    ghost var done: set<string> := {};
    while pending != {}
      invariant forall f | f in pending :: f in files && EndsWith(f, Suffix)
      invariant forall f | Loadable(files, readable, f) :: f in pending || f in done
      invariant Covers(memory, files, readable, done) && Sourced(memory, files, readable, done)
      decreases pending
    {
      var f :| f in pending;
      ghost var before := memory;
      var id := StemId(f);
      if id.Some? && readable(f) {
        memory := memory[id.value := Trim(files[f])];
      }
      LoadStep(before, files, readable, done, f, memory);
      pending := pending - {f};
      done := done + {f};
    }
  }

  /** Every loadable file is named as `put` names it: no "007.msg" beside "7.msg". */
  ghost predicate Canonical(files: map<string, string>) {
    forall f | f in files && EndsWith(f, Suffix) && StemId(f).Some? :: f == FileName(StemId(f).value)
  }

  /** Writing the file of an id keeps a directory canonical. */
  lemma PutKeepsCanonical(files: map<string, string>, id: Int32, message: string)
    requires Canonical(files)
    ensures Canonical(files[FileName(id) := message])
  {
    FileNameRoundTrip(id);
  }

  /** In a canonical directory the scan loads an id from that id's own file. */
  lemma RecoveredFromOwnFile(memory: map<Int32, string>, files: map<string, string>,
                             readable: string -> bool, id: Int32)
    requires Canonical(files) && Recovered(memory, files, readable)
    requires FileName(id) in files && readable(FileName(id))
    ensures id in memory && memory[id] == Trim(files[FileName(id)])
  {
    FileNameRoundTrip(id);
    assert Loadable(files, readable, FileName(id));
    var f :| Loadable(files, readable, f) && StemId(f) == Some(id) && memory[id] == Trim(files[f]);
    assert f == FileName(id);
  }

  /**
   * Cold restart: after `put(id, m)` wrote its file, a fresh engine over the same
   * directory holds `trim(m)` for `id` (only up to trim: blanks at either end are lost).
   */
  lemma ColdRestartAfterPut(files: map<string, string>, readable: string -> bool,
                            memory: map<Int32, string>, id: Int32, message: string)
    requires Canonical(files) && readable(FileName(id))
    requires Recovered(memory, files[FileName(id) := message], readable)
    ensures id in memory && memory[id] == Trim(message)
  {
    PutKeepsCanonical(files, id, message);
    RecoveredFromOwnFile(memory, files[FileName(id) := message], readable, id);
  }
}
