# ensure_dirs, modelled in Dafny

The repository's logic is one helper, `ensure_dirs(dirpath)` in `util.py`. It
creates a directory path one component at a time. It splits the path on `/`
and returns at once when the first component is empty, which covers the empty
path and every absolute path. Otherwise it walks the cumulative prefixes
`c0`, `join(c0, c1)`, `join(join(c0, c1), c2)`, … and calls `os.mkdir` on each
one that `os.path.exists` does not report. An `OSError` from `mkdir`
propagates. The directories made before the error stay.

The project has three modules:

- `Paths` (`paths.dfy`, pure). It holds the split on `/` and its inverse
  `Unsplit`, POSIX `os.path.join` for two arguments (`Join`), and the list of
  cumulative prefixes (`Prefixes`). It also holds the name an entry is known
  by (`Key`: the path without trailing `/`, so `a/` and `a` are the same
  directory) and the parent of an entry (`Parent`).
- `OsModel` (`os_model.dfy`). This is the file system as a class `FileSystem`.
  Its field `entries` maps entry names to `Dir` or `File`; names are relative
  to the working directory, written `""`. The class gives `os.path.exists`
  (`Exists`, specified by `ExistsIn`) and `os.mkdir` (`Mkdir`, specified by
  `MkdirResult`). `mkdir` raises `AlreadyExists` (EEXIST), `NoSuchEntry`
  (ENOENT), `NotADirectory` (ENOTDIR), or `Refused` for the names in the
  constant set `refused`. `Refused` stands for permission, disk-space and
  invalid-name failures.
- `Util` (`util.dfy`). The method `EnsureDirs(fs, dirpath)` follows
  `util.py`: it has the same early returns and the same loop over
  `components[1:]`, which reassigns `partialpath` with `Join`. Its loop
  invariant says that `partialpath` is the current prefix, and that what the
  rest of the walk leaves equals what the whole walk leaves from the old
  state. The method's `ensures` ties the new `entries` and the outcome to the
  function `EnsureDirsSpec`. `EnsureDirsSpec` folds the check-then-create step
  (`Run`) over the prefixes. The lemmas state the promises of the code about
  `EnsureDirsSpec`.

Points where the code's behaviour is easy to misread:

- The length-zero guard at util.py:7-8 is dead code. `re.split` always returns
  at least one piece (`Paths.Split` proves one more piece than separators).
  The method keeps the guard as an unreachable branch.
- The pieces are joined with POSIX `os.path.join`, which puts a `/` between
  two pieces only when the first is non-empty and does not already end in one.
- A regular file at the last component is not an error, because `exists`
  reports it (`Util.FileAsLastComponentAccepted`). Only a file that has a
  further component after it makes the call raise (`Util.EnsureDirsBlockedByFile`).
- Empty interior or trailing components (`a//b`, `a/b/`) produce prefixes
  that end in `/`. These name the same entry as the path without the slash
  (`Paths.PrefixKey`), so they cause no extra `mkdir`. The one exception: a
  prefix that ends in `/` over a regular file is not reported by `exists`
  (ENOTDIR), so `mkdir` is tried and raises "already exists"
  (`Util.EnsureDirsAlreadyExistsOnlyOverFile`).

## Model

| member | source | states |
|---|---|---|
| `Paths.Split` | util.py:6-8 | Splitting on `/` gives one more piece than the input has separators, so never an empty list and the guard at line 7 never fires. No piece contains `/`. The first piece is empty exactly when the input is empty or starts with `/`. |
| `Paths.UnsplitSplit` | util.py:6 | Gluing the pieces of a split back together with `/` gives the input again. The split loses nothing. |
| `Paths.SplitUnsplit` | util.py:6 | The converse: pieces with no `/` in them, glued with `/` and split again, come back unchanged. |
| `Paths.Join` | util.py:15 | POSIX `os.path.join(a, b)`. An absolute `b` replaces `a`. For any other `b`, the result starts with `a` and is at most one character longer than `a` and `b` together. |
| `Paths.JoinEndsWith` | util.py:15 | For a relative `b`, the join is `a`, then a middle part, then `b`. The middle is `/` exactly when `a` is non-empty and does not end in `/`, and empty otherwise. |
| `Paths.Key` | util.py:12-13 | The name `exists` and `mkdir` give a path is a prefix of it that does not end in `/`. |
| `Paths.KeyDropsSlashes` | util.py:12-13 | Everything that name drops from the path is `/`. |
| `Paths.Prefixes` | util.py:9-15 | There is one cumulative path per component, and the first one is the first component. |
| `Paths.PrefixesTruncate` | util.py:14-15 | The prefixes of the first k components are the first k prefixes. A later component never changes an earlier prefix. |
| `Paths.PrefixesStep` | util.py:14-15 | Each prefix is the previous prefix joined with the next component. |
| `Paths.PrefixesNested` | util.py:14-15 | Every prefix starts with every earlier one. Joining a component never resets the path to an absolute one. |
| `Paths.PrefixShape` | util.py:14-15 | The latest prefix is the components so far with empty ones dropped and `/` between them. It ends in one `/` exactly when the latest component was empty. |
| `Paths.PrefixKey` | util.py:14-17 | Prefix i names the entry made of the first i+1 components with empty ones dropped. That name starts with the first component, so it is never absolute. The prefix ends in `/` exactly when component i is empty. |
| `Paths.PrefixesBeneath` | util.py:14-17 | A prefix that ends in `/` names the same entry as the one before it. Any other prefix names a child of that entry. |
| `Paths.PrefixesOfPath` | util.py:6-15 | When the path has no empty component, prefix i is the input cut just before its (i+1)-th `/`, and the last prefix is the input itself. |
| `OsModel.MkdirResult` | util.py:13 | `mkdir` succeeds exactly when the name is non-empty, not taken, not refused, and its parent is the working directory or a directory. On a path that exists it raises "already exists". |
| `OsModel.MkdirOkEffect` | util.py:13 | A successful `mkdir` adds one directory, which then exists. It changes no other entry and keeps every entry inside a directory. |
| `OsModel.ExistsKept` | util.py:12 | A path that exists still exists after the tree only grew. |
| `OsModel.FileSystem.Exists` | util.py:12-16 | `os.path.exists` reports a path only when its entry is there. An entry written without a trailing `/` is reported, and so is a directory either way. A path with a trailing `/` is reported only over a directory, so `a/` over a regular file is missing. |
| `OsModel.FileSystem.Mkdir` | util.py:13 | The method's outcome is `MkdirResult` of the old state. On success the new state is the old one plus the directory. On an error nothing changes. |
| `Util.Run` | util.py:12-17 | The walk over the prefixes: an existing path is skipped, a missing one is made, and the first failing `mkdir` ends the walk with its error. Its contract says that every entry name present before the walk is present after it. |
| `Util.EnsureDirsSpec` | util.py:3-17 | `ensure_dirs` as a function of the entries. An empty or absolute path returns normally and changes nothing. No entry name is ever lost. |
| `Util.RunExtends` | util.py:12-17 | The walk removes no entry and changes none. |
| `Util.RunOnlyAdds` | util.py:12-17 | Every entry the walk adds is a directory named by one of the walked paths. |
| `Util.RunAddsAtMost` | util.py:12-17 | The walk adds at most one entry per walked path. |
| `Util.RunWellFormed` | util.py:12-17 | The walk keeps every entry inside an existing directory. |
| `Util.RunOkAllExist` | util.py:12-17 | A walk that returns normally leaves every walked path existing. |
| `Util.RunErrStops` | util.py:12-17 | A walk that raises stops at the first path it could not create. That path is missing, `mkdir` on it gives the propagated error, and every earlier path exists. |
| `Util.RunAllExist` | util.py:12-17 | When every path already exists, the walk changes nothing and returns normally. |
| `Util.RunIdempotent` | util.py:12-17 | After a normal return, walking the same paths again changes nothing and returns normally. |
| `Util.RunSkipTo` | util.py:12-17 | Leading paths that all exist are skipped: the walk from them equals the walk from the first one after them. |
| `Util.RunRepeat` | util.py:12-17 | Whatever the first walk's end, walking the same paths again from its result changes nothing and ends the same way, with the same error if it raised. |
| `Util.RunAlreadyExistsOnlyOverFile` | util.py:12-17 | The walk raises "already exists" only for a path with a trailing `/` whose entry was a regular file. |
| `Util.RunOkFrom` | util.py:12-17 | The rest of a walk over paths that each lie beneath the one before ends normally. This holds when the previous path exists, no earlier path names a regular file, and every refused path was already there. |
| `Util.RunOkRefusedExisted` | util.py:12-17 | A walk that ends normally found every path the system refuses to create already present. |
| `Util.FileBlocksNext` | util.py:12-17 | A path beneath a regular file does not exist, and `mkdir` on it fails. |
| `Util.RunBlockedByFile` | util.py:12-17 | If a walked path names a regular file and the next path lies beneath it, the walk raises. |
| `Util.RunAddsCanonicalPrefixes` | util.py:9-17 | Every entry added while walking the prefixes of the components is the name of some prefix: the first i+1 components with empty ones dropped. |
| `Util.EnsureDirsCreatesPrefixes` | util.py:9-17 | After a normal return, every cumulative prefix `join(c0, …, ci)` exists. |
| `Util.EnsureDirsKeepsEntries` | util.py:3-17 | The call removes no entry and changes none. |
| `Util.EnsureDirsOnlyAddsPrefixes` | util.py:3-17 | The call adds only directories, and only when the first component is non-empty. Each one is named by a cumulative prefix of the path, and there are at most as many as the path has components. |
| `Util.EnsureDirsIdempotent` | util.py:3-17 | After a normal return, a second call with the same path changes nothing and does not raise. |
| `Util.EnsureDirsOkWhenClear` | util.py:3-17 | The call returns normally when the first component is non-empty, no prefix but the last names a regular file, and every prefix the system refuses to create already exists. |
| `Util.EnsureDirsOkIffClear` | util.py:3-17 | On a well-formed tree with a non-empty first component, the call returns normally exactly when those two conditions hold. |
| `Util.EnsureDirsRepeat` | util.py:3-17 | For every tree and path, a second call on the first call's result changes nothing and returns or raises as the first did. |
| `Util.EnsureDirsBlockedByFile` | util.py:14-17 | The call raises if a prefix that is followed by another component names a regular file. |
| `Util.EnsureDirsAlreadyExistsOnlyOverFile` | util.py:12-17 | The call raises "already exists" only when an empty component follows a prefix that names a regular file. |
| `Util.EnsureDirsErrKeepsEarlierPrefixes` | util.py:12-17 | A call that raises has a non-empty first component. It stops at a prefix that does not exist, whose `mkdir` gives the error the call raises unchanged. Every earlier prefix exists and stays, because nothing is rolled back. |
| `Util.DataCacheTmp` | util.py:3-17 | `ensure_dirs("data/cache/tmp")` on an empty tree returns normally and creates exactly `data`, `data/cache` and `data/cache/tmp`, all as directories. |
| `Util.FileAsLastComponentAccepted` | util.py:12-13 | `ensure_dirs("data")` when `data` is a regular file returns normally and changes nothing. |
| `Util.EnsureDirs` | util.py:3-17 | The method's new entries and outcome are those of `EnsureDirsSpec` on the old entries. An empty first component (empty or absolute path) returns normally with nothing changed. No entry is removed or changed. After a normal return every cumulative prefix exists. The tree stays well formed. |

## Left out

- Real I/O: `os.path.exists` and `os.mkdir` act on the abstract map `entries`. Failures of `mkdir` that come from the system (permissions, disk full, invalid names) are the fixed set `refused`, not a live condition.
- The check-then-act race between util.py:16 and util.py:17 when several processes create the same path: the model is sequential.
- Windows `os.path.join` (backslashes, drive letters): joining is POSIX.
- The regular-expression engine behind `re.split`: the split is a plain split on the character `/`.
- Absolute paths inside the file-system model: names are relative to the working directory `""`. `ensure_dirs` never passes an absolute path to `exists` or `mkdir` (`Paths.PrefixKey`).
- `.` and `..` components, and symbolic links: they are treated as ordinary names.
- Util.EnsureDirs: its contract does not repeat two properties of the call, that only prefixes are added and that a second call changes nothing. They are proved about `EnsureDirsSpec`, which the method's contract equals (`Util.EnsureDirsOnlyAddsPrefixes`, `Util.EnsureDirsIdempotent`, `Util.EnsureDirsRepeat`).
