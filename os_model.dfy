/**
 * The part of the operating system that `ensure_dirs` touches: a tree of
 * named entries, each a directory or a regular file, queried with
 * `os.path.exists` and extended with `os.mkdir`. Paths are relative to the
 * working directory, which the empty name "" stands for.
 */
module OsModel {
  import opened Paths

  datatype Kind = Dir | File

  /** The reasons `os.mkdir` raises `OSError`. */
  datatype Errno =
    | AlreadyExists   // EEXIST: an entry of that name is already there
    | NoSuchEntry     // ENOENT: the name is empty or its parent is missing
    | NotADirectory   // ENOTDIR: the parent is a regular file
    | Refused         // permission, disk space, invalid name: outside this model

  /** Normal return, or the exception that propagates out of a call. */
  datatype Outcome = Ok | Err(errno: Errno)

  /** `d` can hold entries: the working directory or an existing directory. */
  predicate IsDir(entries: map<string, Kind>, d: string) {
    d == "" || (d in entries && entries[d] == Dir)
  }

  /** Every entry has a name and sits inside a directory. */
  predicate WellFormed(entries: map<string, Kind>) {
    forall k :: k in entries ==> k != "" && IsDir(entries, Parent(k))
  }

  /**
   * `os.path.exists(p)`: the entry is there; a path written with a trailing
   * `/` exists only when it names a directory.
   */
  predicate ExistsIn(entries: map<string, Kind>, p: string) {
    Key(p) in entries && (EndsWithSlash(p) ==> entries[Key(p)] == Dir)
  }

  /** Growing the tree: nothing removed, nothing changed. */
  predicate Extends(before: map<string, Kind>, after: map<string, Kind>) {
    forall k :: k in before ==> k in after && after[k] == before[k]
  }

  /**
   * What `os.mkdir(p)` reports. `refused` holds the names the system will not
   * create for reasons outside this model.
   */
  function MkdirResult(entries: map<string, Kind>, refused: set<string>, p: string): (r: Outcome)
    ensures r == Ok <==>
              Key(p) != "" && Key(p) !in entries && IsDir(entries, Parent(Key(p))) && Key(p) !in refused
    ensures ExistsIn(entries, p) && Key(p) != "" ==> r == Err(AlreadyExists)
  {
    var k := Key(p);
    if k == "" then Err(NoSuchEntry)
    else if k in entries then Err(AlreadyExists)
    else if Parent(k) != "" && Parent(k) !in entries then Err(NoSuchEntry)
    else if !IsDir(entries, Parent(k)) then Err(NotADirectory)
    else if k in refused then Err(Refused)
    else Ok
  }

  /** A successful `mkdir` adds one directory, which then exists, and keeps the tree well formed. */
  lemma {:induction false} MkdirOkEffect(entries: map<string, Kind>, refused: set<string>, p: string)
    requires WellFormed(entries) && MkdirResult(entries, refused, p) == Ok
    ensures WellFormed(entries[Key(p) := Dir])
    ensures Extends(entries, entries[Key(p) := Dir])
    ensures ExistsIn(entries[Key(p) := Dir], p)
  {
    var e' := entries[Key(p) := Dir];
    forall k | k in e' ensures k != "" && IsDir(e', Parent(k)) {
      if k != Key(p) {
        assert IsDir(entries, Parent(k));
      }
    }
  }

  /** Existence is kept when the tree grows. */
  lemma {:induction false} ExistsKept(before: map<string, Kind>, after: map<string, Kind>, p: string)
    requires Extends(before, after) && ExistsIn(before, p)
    ensures ExistsIn(after, p)
  {
    assert Key(p) in before;
  }

  /** The file system: its entries, and the names it refuses to create. */
  class FileSystem {
    var entries: map<string, Kind>
    const refused: set<string>

    ghost predicate Valid()
      reads this
    {
      WellFormed(entries)
    }

    constructor (initial: map<string, Kind>, refusedNames: set<string>)
      requires WellFormed(initial)
      ensures Valid() && entries == initial && refused == refusedNames
    {
      entries := initial;
      refused := refusedNames;
    }

    /**
     * `os.path.exists`: an entry is reported when written without a trailing
     * `/`, or when it is a directory; nothing else is.
     */
    function Exists(p: string): (r: bool)
      reads this
      ensures r ==> Key(p) in entries
      ensures Key(p) in entries && !EndsWithSlash(p) ==> r
      ensures Key(p) in entries && entries[Key(p)] == Dir ==> r
      ensures r && EndsWithSlash(p) ==> entries[Key(p)] == Dir
    {
      ExistsIn(entries, p)
    }

    /** `os.mkdir`: creates the directory or raises, changing nothing. */
    method Mkdir(p: string) returns (r: Outcome)
      requires Valid()
      modifies this
      ensures Valid()
      ensures r == MkdirResult(old(entries), refused, p)
      ensures entries == if r == Ok then old(entries)[Key(p) := Dir] else old(entries)
    {
      r := MkdirResult(entries, refused, p);
      if r == Ok {
        MkdirOkEffect(entries, refused, p);
        entries := entries[Key(p) := Dir];
      }
    }
  }
}
