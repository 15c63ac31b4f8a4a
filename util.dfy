/**
 * `ensure_dirs(dirpath)`: split the path on `/`, give up at once when the
 * first component is empty (the empty path and every absolute path), and
 * otherwise walk the cumulative prefixes, creating each one that does not
 * exist yet. An error from `os.mkdir` propagates and ends the walk; the
 * directories made before it stay.
 */
module Util {
  import opened Paths
  import opened OsModel

  /**
   * The walk over the prefixes `ps`: a path that exists is skipped, a missing
   * one is made; the first failing `mkdir` ends the walk with its error.
   */
  function Run(entries: map<string, Kind>, refused: set<string>, ps: seq<string>): (r: (map<string, Kind>, Outcome))
    ensures entries.Keys <= r.0.Keys
    decreases |ps|
  {
    if ps == [] then (entries, Ok)
    else if ExistsIn(entries, ps[0]) then Run(entries, refused, ps[1..])
    else
      var o := MkdirResult(entries, refused, ps[0]);
      if o != Ok then (entries, o)
      else Run(entries[Key(ps[0]) := Dir], refused, ps[1..])
  }

  /** The entries and the outcome that `ensure_dirs(dirpath)` leaves. */
  function EnsureDirsSpec(entries: map<string, Kind>, refused: set<string>, dirpath: string): (r: (map<string, Kind>, Outcome))
    ensures Split(dirpath)[0] == "" ==> r == (entries, Ok)
    ensures entries.Keys <= r.0.Keys
  {
    var cs := Split(dirpath);
    if cs[0] == "" then (entries, Ok) else Run(entries, refused, Prefixes(cs))
  }

  /** The entry names of a list of paths. */
  function KeysOf(ps: seq<string>): (ks: set<string>)
    ensures |ks| <= |ps|
    ensures forall p :: p in ps ==> Key(p) in ks
    ensures forall k :: k in ks ==> exists i :: 0 <= i < |ps| && Key(ps[i]) == k
    decreases |ps|
  {
    if ps == [] then {} else {Key(ps[0])} + KeysOf(ps[1..])
  }

  /** One step of the walk from path i. */
  lemma {:induction false} RunUnfold(entries: map<string, Kind>, refused: set<string>, ps: seq<string>, i: nat)
    requires i < |ps|
    ensures Run(entries, refused, ps[i..]) ==
              if ExistsIn(entries, ps[i]) then Run(entries, refused, ps[i + 1..])
              else if MkdirResult(entries, refused, ps[i]) != Ok then (entries, MkdirResult(entries, refused, ps[i]))
              else Run(entries[Key(ps[i]) := Dir], refused, ps[i + 1..])
  {
    assert ps[i..][0] == ps[i] && ps[i..][1..] == ps[i + 1..];
  }

  /** The walk removes nothing and changes nothing that was there. */
  lemma {:induction false} RunExtends(entries: map<string, Kind>, refused: set<string>, ps: seq<string>)
    ensures Extends(entries, Run(entries, refused, ps).0)
    decreases |ps|
  {
    if ps != [] {
      if ExistsIn(entries, ps[0]) {
        RunExtends(entries, refused, ps[1..]);
      } else if MkdirResult(entries, refused, ps[0]) == Ok {
        RunExtends(entries[Key(ps[0]) := Dir], refused, ps[1..]);
      }
    }
  }

  /** Every entry in `after` that is not in `before` is a directory. */
  predicate AddsOnlyDirs(before: map<string, Kind>, after: map<string, Kind>) {
    forall k :: k in after && k !in before ==> after[k] == Dir
  }

  /** Everything the walk adds is a directory named by one of the paths. */
  lemma {:induction false} RunOnlyAdds(entries: map<string, Kind>, refused: set<string>, ps: seq<string>)
    ensures Run(entries, refused, ps).0.Keys - entries.Keys <= KeysOf(ps)
    ensures AddsOnlyDirs(entries, Run(entries, refused, ps).0)
    decreases |ps|
  {
    if ps != [] {
      assert KeysOf(ps) == {Key(ps[0])} + KeysOf(ps[1..]);
      if ExistsIn(entries, ps[0]) {
        RunOnlyAdds(entries, refused, ps[1..]);
      } else if MkdirResult(entries, refused, ps[0]) == Ok {
        var e1 := entries[Key(ps[0]) := Dir];
        var e' := Run(e1, refused, ps[1..]).0;
        assert Run(entries, refused, ps).0 == e';
        RunOnlyAdds(e1, refused, ps[1..]);
        RunExtends(e1, refused, ps[1..]);
        forall k | k in e' && k !in entries ensures e'[k] == Dir {
          if k == Key(ps[0]) {
            assert k in e1;
          } else {
            assert k !in e1;
          }
        }
      }
    }
  }

  /** The walk adds at most one entry per path. */
  lemma {:induction false} RunAddsAtMost(entries: map<string, Kind>, refused: set<string>, ps: seq<string>)
    ensures |Run(entries, refused, ps).0.Keys - entries.Keys| <= |ps|
  {
    RunOnlyAdds(entries, refused, ps);
    SubsetCard(Run(entries, refused, ps).0.Keys - entries.Keys, KeysOf(ps));
  }

  lemma {:induction false} SubsetCard(a: set<string>, b: set<string>)
    requires a <= b
    ensures |a| <= |b|
  {
    assert b == a + (b - a);
  }

  /** The walk keeps the tree well formed. */
  lemma {:induction false} RunWellFormed(entries: map<string, Kind>, refused: set<string>, ps: seq<string>)
    requires WellFormed(entries)
    ensures WellFormed(Run(entries, refused, ps).0)
    decreases |ps|
  {
    if ps != [] {
      if ExistsIn(entries, ps[0]) {
        RunWellFormed(entries, refused, ps[1..]);
      } else if MkdirResult(entries, refused, ps[0]) == Ok {
        MkdirOkEffect(entries, refused, ps[0]);
        RunWellFormed(entries[Key(ps[0]) := Dir], refused, ps[1..]);
      }
    }
  }

  /** A walk that ends normally leaves every path existing. */
  lemma {:induction false} RunOkAllExist(entries: map<string, Kind>, refused: set<string>, ps: seq<string>)
    requires Run(entries, refused, ps).1 == Ok
    ensures forall p :: p in ps ==> ExistsIn(Run(entries, refused, ps).0, p)
    decreases |ps|
  {
    if ps != [] {
      var e1 := if ExistsIn(entries, ps[0]) then entries else entries[Key(ps[0]) := Dir];
      assert ExistsIn(e1, ps[0]);
      assert Run(entries, refused, ps) == Run(e1, refused, ps[1..]);
      RunOkAllExist(e1, refused, ps[1..]);
      RunExtends(e1, refused, ps[1..]);
      ExistsKept(e1, Run(e1, refused, ps[1..]).0, ps[0]);
      assert ps == [ps[0]] + ps[1..];
    }
  }

  /**
   * A walk that raises stops at the first path it could not create: that
   * path is missing, `mkdir` on it gives the error, and every path before it
   * exists.
   */
  lemma {:induction false} RunErrStops(entries: map<string, Kind>, refused: set<string>, ps: seq<string>)
    requires Run(entries, refused, ps).1 != Ok
    ensures exists i :: 0 <= i < |ps| && !ExistsIn(Run(entries, refused, ps).0, ps[i])
              && MkdirResult(Run(entries, refused, ps).0, refused, ps[i]) == Run(entries, refused, ps).1
              && forall j :: 0 <= j < i ==> ExistsIn(Run(entries, refused, ps).0, ps[j])
    decreases |ps|
  {
    var (e', o) := Run(entries, refused, ps);
    if !ExistsIn(entries, ps[0]) && MkdirResult(entries, refused, ps[0]) != Ok {
      assert e' == entries;
      assert 0 < |ps| && !ExistsIn(e', ps[0]) && MkdirResult(e', refused, ps[0]) == o;
    } else {
      var e1 := if ExistsIn(entries, ps[0]) then entries else entries[Key(ps[0]) := Dir];
      assert ExistsIn(e1, ps[0]);
      assert Run(entries, refused, ps) == Run(e1, refused, ps[1..]);
      RunErrStops(e1, refused, ps[1..]);
      RunExtends(e1, refused, ps[1..]);
      ExistsKept(e1, e', ps[0]);
      var i :| 0 <= i < |ps[1..]| && !ExistsIn(e', ps[1..][i])
                && MkdirResult(e', refused, ps[1..][i]) == o
                && forall j :: 0 <= j < i ==> ExistsIn(e', ps[1..][j]);
      assert forall j :: 0 <= j < i + 1 ==> ExistsIn(e', ps[j]) by {
        forall j | 0 <= j < i + 1 ensures ExistsIn(e', ps[j]) {
          if j > 0 {
            assert ps[j] == ps[1..][j - 1];
          }
        }
      }
      assert ps[i + 1] == ps[1..][i];
    }
  }

  /** When every path already exists, the walk changes nothing and ends normally. */
  lemma {:induction false} RunAllExist(entries: map<string, Kind>, refused: set<string>, ps: seq<string>)
    requires forall p :: p in ps ==> ExistsIn(entries, p)
    ensures Run(entries, refused, ps) == (entries, Ok)
    decreases |ps|
  {
    if ps != [] {
      assert ps[0] in ps;
      assert forall p :: p in ps[1..] ==> p in ps;
      RunAllExist(entries, refused, ps[1..]);
    }
  }

  /** Walking the same paths again after a normal end adds nothing. */
  lemma {:induction false} RunIdempotent(entries: map<string, Kind>, refused: set<string>, ps: seq<string>)
    requires Run(entries, refused, ps).1 == Ok
    ensures Run(Run(entries, refused, ps).0, refused, ps) == (Run(entries, refused, ps).0, Ok)
  {
    RunOkAllExist(entries, refused, ps);
    RunAllExist(Run(entries, refused, ps).0, refused, ps);
  }

  /** Leading paths that all exist are skipped without effect. */
  lemma {:induction false} RunSkipTo(entries: map<string, Kind>, refused: set<string>, ps: seq<string>, i: nat)
    requires i <= |ps|
    requires forall j :: 0 <= j < i ==> ExistsIn(entries, ps[j])
    ensures Run(entries, refused, ps) == Run(entries, refused, ps[i..])
    decreases i
  {
    if i > 0 {
      assert ExistsIn(entries, ps[0]);
      assert forall j :: 0 <= j < i - 1 ==> ps[1..][j] == ps[j + 1];
      RunSkipTo(entries, refused, ps[1..], i - 1);
      assert ps[1..][i - 1..] == ps[i..];
    }
  }

  /**
   * Walking the same paths a second time, whatever the first walk's end,
   * changes nothing and ends as the first walk did: after a normal end every
   * path exists, and after an error the failing path is still missing and
   * fails the same way.
   */
  lemma {:induction false} RunRepeat(entries: map<string, Kind>, refused: set<string>, ps: seq<string>)
    ensures Run(Run(entries, refused, ps).0, refused, ps) == Run(entries, refused, ps)
  {
    var (e', o) := Run(entries, refused, ps);
    if o == Ok {
      RunIdempotent(entries, refused, ps);
    } else {
      RunErrStops(entries, refused, ps);
      var i :| 0 <= i < |ps| && !ExistsIn(e', ps[i]) && MkdirResult(e', refused, ps[i]) == o
                && forall j :: 0 <= j < i ==> ExistsIn(e', ps[j]);
      RunSkipTo(e', refused, ps, i);
      RunUnfold(e', refused, ps, i);
    }
  }

  /**
   * `mkdir` is attempted only on a missing path, so "already exists" can
   * only come from a path with a trailing `/` whose entry is a regular file.
   */
  lemma {:induction false} RunAlreadyExistsOnlyOverFile(entries: map<string, Kind>, refused: set<string>, ps: seq<string>)
    requires Run(entries, refused, ps).1 == Err(AlreadyExists)
    ensures exists p :: p in ps && EndsWithSlash(p) && Key(p) in entries && entries[Key(p)] == File
    decreases |ps|
  {
    if !ExistsIn(entries, ps[0]) && MkdirResult(entries, refused, ps[0]) != Ok {
      assert ps[0] in ps;
    } else {
      var e1 := if ExistsIn(entries, ps[0]) then entries else entries[Key(ps[0]) := Dir];
      RunAlreadyExistsOnlyOverFile(e1, refused, ps[1..]);
      var p :| p in ps[1..] && EndsWithSlash(p) && Key(p) in e1 && e1[Key(p)] == File;
      assert p in ps;
    }
  }

  /**
   * A regular file on the way blocks the walk: when path i names a file and
   * path i+1 lies beneath it, the walk raises.
   */
  lemma {:induction false} RunBlockedByFile(entries: map<string, Kind>, refused: set<string>, ps: seq<string>, i: nat)
    requires WellFormed(entries) && i + 1 < |ps|
    requires Key(ps[i]) in entries && entries[Key(ps[i])] == File
    requires Beneath(ps[i], ps[i + 1])
    ensures Run(entries, refused, ps).1 != Ok
    decreases i
  {
    var k0 := Key(ps[0]);
    if i == 0 {
      if ExistsIn(entries, ps[0]) {
        assert Run(entries, refused, ps) == Run(entries, refused, ps[1..]);
        assert ps[1..][0] == ps[1];
        FileBlocksNext(entries, refused, ps[0], ps[1]);
      } else {
        assert MkdirResult(entries, refused, ps[0]) == Err(AlreadyExists);
      }
    } else {
      assert ps[1..][i - 1] == ps[i] && ps[1..][i] == ps[i + 1];
      if ExistsIn(entries, ps[0]) {
        assert Run(entries, refused, ps) == Run(entries, refused, ps[1..]);
        RunBlockedByFile(entries, refused, ps[1..], i - 1);
      } else if MkdirResult(entries, refused, ps[0]) == Ok {
        MkdirOkEffect(entries, refused, ps[0]);
        var e1 := entries[k0 := Dir];
        assert Run(entries, refused, ps) == Run(e1, refused, ps[1..]);
        assert k0 != Key(ps[i]);
        RunBlockedByFile(e1, refused, ps[1..], i - 1);
      }
    }
  }

  /** A path beneath a regular file neither exists nor can be made. */
  lemma {:induction false} FileBlocksNext(entries: map<string, Kind>, refused: set<string>, p: string, q: string)
    requires WellFormed(entries) && Key(p) in entries && entries[Key(p)] == File
    requires Beneath(p, q)
    ensures !ExistsIn(entries, q) && MkdirResult(entries, refused, q) != Ok
  {
    var k := Key(q);
    if !EndsWithSlash(q) {
      assert Parent(k) == Key(p) && k != "";
      assert k in entries ==> IsDir(entries, Parent(k));
    }
  }

  /** After a normal return every cumulative prefix of the path exists. */
  lemma {:induction false} EnsureDirsCreatesPrefixes(entries: map<string, Kind>, refused: set<string>, dirpath: string)
    requires Split(dirpath)[0] != "" && EnsureDirsSpec(entries, refused, dirpath).1 == Ok
    ensures AllExist(EnsureDirsSpec(entries, refused, dirpath).0, Prefixes(Split(dirpath)))
  {
    var ps := Prefixes(Split(dirpath));
    RunOkAllExist(entries, refused, ps);
    assert forall i :: 0 <= i < |ps| ==> ps[i] in ps;
  }

  /** Every path of `ps` exists in `entries`. */
  predicate AllExist(entries: map<string, Kind>, ps: seq<string>) {
    forall i :: 0 <= i < |ps| ==> ExistsIn(entries, ps[i])
  }

  /** `ensure_dirs` removes no entry and changes none. */
  lemma {:induction false} EnsureDirsKeepsEntries(entries: map<string, Kind>, refused: set<string>, dirpath: string)
    ensures Extends(entries, EnsureDirsSpec(entries, refused, dirpath).0)
  {
    if Split(dirpath)[0] != "" {
      RunExtends(entries, refused, Prefixes(Split(dirpath)));
    }
  }

  /**
   * Each entry `ensure_dirs` adds is a directory named by a cumulative
   * prefix of the path (empty components dropped), and there are at most as
   * many as the path has components.
   */
  lemma {:induction false} EnsureDirsOnlyAddsPrefixes(entries: map<string, Kind>, refused: set<string>, dirpath: string)
    ensures AddsOnlyDirs(entries, EnsureDirsSpec(entries, refused, dirpath).0)
    ensures AddsOnlyPrefixesOf(entries, EnsureDirsSpec(entries, refused, dirpath).0, Split(dirpath))
    ensures |EnsureDirsSpec(entries, refused, dirpath).0.Keys - entries.Keys| <= |Split(dirpath)|
  {
    var cs := Split(dirpath);
    if cs[0] != "" {
      var ps := Prefixes(cs);
      assert EnsureDirsSpec(entries, refused, dirpath) == Run(entries, refused, ps);
      RunOnlyAdds(entries, refused, ps);
      RunAddsAtMost(entries, refused, ps);
      RunAddsCanonicalPrefixes(entries, refused, cs);
    } else {
      assert EnsureDirsSpec(entries, refused, dirpath).0 == entries;
      assert entries.Keys - entries.Keys == {};
    }
  }

  /**
   * Every entry in `after` that is not in `before` is named by a cumulative
   * prefix of `cs`, whose first component is not empty.
   */
  predicate AddsOnlyPrefixesOf(before: map<string, Kind>, after: map<string, Kind>, cs: seq<string>) {
    forall k :: k in after && k !in before ==>
      |cs| >= 1 && cs[0] != "" && exists i :: 0 <= i < |cs| && k == CanonicalPrefix(cs, i)
  }

  /** Each entry the walk over the prefixes of `cs` adds is a canonical prefix of `cs`. */
  lemma {:induction false} RunAddsCanonicalPrefixes(entries: map<string, Kind>, refused: set<string>, cs: seq<string>)
    requires |cs| >= 1 && cs[0] != "" && AllNoSlash(cs)
    ensures AddsOnlyPrefixesOf(entries, Run(entries, refused, Prefixes(cs)).0, cs)
  {
    var ps := Prefixes(cs);
    RunOnlyAdds(entries, refused, ps);
    var e' := Run(entries, refused, ps).0;
    forall k | k in e' && k !in entries
      ensures exists i :: 0 <= i < |cs| && k == CanonicalPrefix(cs, i)
    {
      assert k in KeysOf(ps);
      var i :| 0 <= i < |ps| && Key(ps[i]) == k;
      PrefixKey(cs, i);
      assert k == CanonicalPrefix(cs, i);
    }
  }

  /** A second call with the same path after a normal return changes nothing and does not raise. */
  lemma {:induction false} EnsureDirsIdempotent(entries: map<string, Kind>, refused: set<string>, dirpath: string)
    requires EnsureDirsSpec(entries, refused, dirpath).1 == Ok
    ensures EnsureDirsSpec(EnsureDirsSpec(entries, refused, dirpath).0, refused, dirpath)
              == (EnsureDirsSpec(entries, refused, dirpath).0, Ok)
  {
    if Split(dirpath)[0] != "" {
      RunIdempotent(entries, refused, Prefixes(Split(dirpath)));
    }
  }

  /**
   * A second call with the same path, whatever the first call's outcome,
   * changes nothing and returns or raises as the first call did.
   */
  lemma {:induction false} EnsureDirsRepeat(entries: map<string, Kind>, refused: set<string>, dirpath: string)
    ensures EnsureDirsSpec(EnsureDirsSpec(entries, refused, dirpath).0, refused, dirpath)
              == EnsureDirsSpec(entries, refused, dirpath)
  {
    if Split(dirpath)[0] != "" {
      RunRepeat(entries, refused, Prefixes(Split(dirpath)));
    }
  }

  /**
   * A regular file where a directory of the path should be makes the call
   * raise: prefix i names a file and a component follows it.
   */
  lemma {:induction false} EnsureDirsBlockedByFile(entries: map<string, Kind>, refused: set<string>, dirpath: string, i: nat)
    requires WellFormed(entries) && Split(dirpath)[0] != "" && i + 1 < |Split(dirpath)|
    requires Key(Prefixes(Split(dirpath))[i]) in entries
    requires entries[Key(Prefixes(Split(dirpath))[i])] == File
    ensures EnsureDirsSpec(entries, refused, dirpath).1 != Ok
  {
    PrefixesBeneath(Split(dirpath), i);
    RunBlockedByFile(entries, refused, Prefixes(Split(dirpath)), i);
  }

  /** Every path of `ps` but the last that names an entry names a directory. */
  predicate DirsBeforeLast(entries: map<string, Kind>, ps: seq<string>) {
    forall j :: 0 <= j < |ps| - 1 && Key(ps[j]) in entries ==> entries[Key(ps[j])] == Dir
  }

  /** The names the system refuses to create are, among those of `ps`, all present already. */
  predicate RefusedOnlyExisting(entries: map<string, Kind>, refused: set<string>, ps: seq<string>) {
    forall j :: 0 <= j < |ps| && Key(ps[j]) in refused ==> Key(ps[j]) in entries
  }

  /** Each path of `ps` lies beneath the one before it. */
  predicate Chained(ps: seq<string>) {
    forall j :: 1 <= j < |ps| ==> Beneath(ps[j - 1], ps[j])
  }

  /**
   * The rest of a walk over a chain of paths ends normally when the path
   * before it exists, no earlier path names a file and nothing it must
   * create is refused.
   */
  lemma {:induction false} RunOkFrom(e0: map<string, Kind>, e: map<string, Kind>, refused: set<string>, ps: seq<string>, i: nat)
    requires 1 <= i <= |ps| && Chained(ps)
    requires DirsBeforeLast(e0, ps) && RefusedOnlyExisting(e0, refused, ps)
    requires Extends(e0, e) && AddsOnlyDirs(e0, e) && ExistsIn(e, ps[i - 1])
    ensures Run(e, refused, ps[i..]).1 == Ok
    decreases |ps| - i
  {
    if i < |ps| {
      var p := ps[i - 1];
      var q := ps[i];
      assert Key(p) in e && e[Key(p)] == Dir by {
        if Key(p) in e0 {
          assert 0 <= i - 1 < |ps| - 1;
        }
      }
      assert Beneath(p, q);
      assert ps[i..][0] == q && ps[i..][1..] == ps[i + 1..];
      if ExistsIn(e, q) {
        RunOkFrom(e0, e, refused, ps, i + 1);
      } else {
        var k := Key(q);
        assert !EndsWithSlash(q);
        assert k !in e0 && k !in refused;
        assert MkdirResult(e, refused, q) == Ok;
        RunOkFrom(e0, e[k := Dir], refused, ps, i + 1);
      }
    }
  }

  /** A walk that ends normally found every refused path already there. */
  lemma {:induction false} RunOkRefusedExisted(entries: map<string, Kind>, refused: set<string>, ps: seq<string>)
    requires Run(entries, refused, ps).1 == Ok
    ensures RefusedOnlyExisting(entries, refused, ps)
    decreases |ps|
  {
    if ps != [] {
      var k0 := Key(ps[0]);
      var e1 := if ExistsIn(entries, ps[0]) then entries else entries[k0 := Dir];
      assert Run(entries, refused, ps) == Run(e1, refused, ps[1..]);
      assert k0 in refused ==> k0 in entries;
      RunOkRefusedExisted(e1, refused, ps[1..]);
      forall j | 0 <= j < |ps| && Key(ps[j]) in refused ensures Key(ps[j]) in entries {
        if j > 0 {
          assert ps[j] == ps[1..][j - 1];
        }
      }
    }
  }

  /** The prefixes of a path form a chain. */
  lemma {:induction false} PrefixesChained(cs: seq<string>)
    requires |cs| >= 1 && cs[0] != "" && AllNoSlash(cs)
    ensures Chained(Prefixes(cs))
  {
    forall j | 1 <= j < |cs| ensures Beneath(Prefixes(cs)[j - 1], Prefixes(cs)[j]) {
      PrefixesBeneath(cs, j - 1);
    }
  }

  /**
   * When the call returns normally: past the early exit, exactly when no
   * prefix but the last names a regular file and every prefix the system
   * refuses to create is there already.
   */
  lemma {:induction false} EnsureDirsOkIffClear(entries: map<string, Kind>, refused: set<string>, dirpath: string)
    requires WellFormed(entries) && Split(dirpath)[0] != ""
    ensures EnsureDirsSpec(entries, refused, dirpath).1 == Ok <==>
              DirsBeforeLast(entries, Prefixes(Split(dirpath)))
              && RefusedOnlyExisting(entries, refused, Prefixes(Split(dirpath)))
  {
    var cs := Split(dirpath);
    var ps := Prefixes(cs);
    assert EnsureDirsSpec(entries, refused, dirpath) == Run(entries, refused, ps);
    if Run(entries, refused, ps).1 == Ok {
      RunOkRefusedExisted(entries, refused, ps);
      forall j | 0 <= j < |ps| - 1 && Key(ps[j]) in entries ensures entries[Key(ps[j])] == Dir {
        if entries[Key(ps[j])] == File {
          EnsureDirsBlockedByFile(entries, refused, dirpath, j);
        }
      }
    }
    if DirsBeforeLast(entries, ps) && RefusedOnlyExisting(entries, refused, ps) {
      EnsureDirsOkWhenClear(entries, refused, dirpath);
    }
  }

  /** The walk over the prefixes succeeds when nothing is in its way. */
  lemma {:induction false} EnsureDirsOkWhenClear(entries: map<string, Kind>, refused: set<string>, dirpath: string)
    requires Split(dirpath)[0] != ""
    requires DirsBeforeLast(entries, Prefixes(Split(dirpath)))
    requires RefusedOnlyExisting(entries, refused, Prefixes(Split(dirpath)))
    ensures EnsureDirsSpec(entries, refused, dirpath).1 == Ok
  {
    var cs := Split(dirpath);
    var ps := Prefixes(cs);
    PrefixesChained(cs);
    assert EnsureDirsSpec(entries, refused, dirpath) == Run(entries, refused, ps);
    var c := cs[0];
    assert ps[0] == c && NoSlash(c);
    assert Key(c) == c;
    assert Parent(c) == "";
    if ExistsIn(entries, c) {
      RunOkFrom(entries, entries, refused, ps, 1);
    } else {
      assert c !in entries;
      assert MkdirResult(entries, refused, c) == Ok;
      RunOkFrom(entries, entries[c := Dir], refused, ps, 1);
    }
  }

  /**
   * Since `mkdir` is tried only on missing paths, the call raises "already
   * exists" only when an empty component (`a//b`, `a/`) follows a prefix
   * that names a regular file.
   */
  lemma {:induction false} EnsureDirsAlreadyExistsOnlyOverFile(entries: map<string, Kind>, refused: set<string>, dirpath: string)
    requires EnsureDirsSpec(entries, refused, dirpath).1 == Err(AlreadyExists)
    ensures Split(dirpath)[0] != ""
    ensures exists i :: 0 <= i < |Split(dirpath)| && Split(dirpath)[i] == ""
              && Key(Prefixes(Split(dirpath))[i]) in entries
              && entries[Key(Prefixes(Split(dirpath))[i])] == File
  {
    var cs := Split(dirpath);
    var ps := Prefixes(cs);
    RunAlreadyExistsOnlyOverFile(entries, refused, ps);
    var p :| p in ps && EndsWithSlash(p) && Key(p) in entries && entries[Key(p)] == File;
    var i :| 0 <= i < |ps| && ps[i] == p;
    PrefixKey(cs, i);
  }

  /**
   * A call that raises stops at the first prefix it could not create; the
   * prefixes before it exist and stay, as there is no rollback.
   */
  lemma {:induction false} EnsureDirsErrKeepsEarlierPrefixes(entries: map<string, Kind>, refused: set<string>, dirpath: string)
    requires EnsureDirsSpec(entries, refused, dirpath).1 != Ok
    ensures Split(dirpath)[0] != ""
    ensures exists i :: 0 <= i < |Split(dirpath)|
              && !ExistsIn(EnsureDirsSpec(entries, refused, dirpath).0, Prefixes(Split(dirpath))[i])
              && MkdirResult(EnsureDirsSpec(entries, refused, dirpath).0, refused, Prefixes(Split(dirpath))[i])
                   == EnsureDirsSpec(entries, refused, dirpath).1
              && forall j :: 0 <= j < i ==> ExistsIn(EnsureDirsSpec(entries, refused, dirpath).0, Prefixes(Split(dirpath))[j])
  {
    RunErrStops(entries, refused, Prefixes(Split(dirpath)));
  }

  /** `ensure_dirs("data/cache/tmp")` on an empty tree makes the three nested directories. */
  lemma DataCacheTmp()
    ensures EnsureDirsSpec(map[], {}, "data/cache/tmp")
              == (map["data" := Dir, "data/cache" := Dir, "data/cache/tmp" := Dir], Ok)
  {
    DataCacheTmpPrefixes();
    DataCacheTmpRun();
  }

  lemma DataCacheTmpPrefixes()
    ensures Split("data/cache/tmp")[0] != ""
    ensures Prefixes(Split("data/cache/tmp")) == ["data", "data/cache", "data/cache/tmp"]
  {
    DataCacheTmpSplit();
    DataCacheTmpPrefixesOf(["data", "cache", "tmp"]);
  }

  lemma DataCacheTmpPrefixesOf(cs: seq<string>)
    requires cs == ["data", "cache", "tmp"]
    ensures Prefixes(cs) == ["data", "data/cache", "data/cache/tmp"]
  {
    PrefixesStep(cs, 0);
    PrefixesStep(cs, 1);
    DataCacheTmpJoins();
  }

  lemma DataCacheTmpJoins()
    ensures Join("data", "cache") == "data/cache"
    ensures Join("data/cache", "tmp") == "data/cache/tmp"
  {
    assert "data" + "/" + "cache" == "data/cache";
    assert "data/cache" + "/" + "tmp" == "data/cache/tmp";
  }

  lemma DataCacheTmpSplit()
    ensures Split("data/cache/tmp") == ["data", "cache", "tmp"]
  {
    var cs := ["data", "cache", "tmp"];
    assert AllNoSlash(cs);
    assert Unsplit(cs) == "data/cache/tmp" by {
      assert Unsplit(cs[1..]) == "cache/tmp";
    }
    SplitUnsplit(cs);
  }

  lemma DataCacheTmpRun()
    ensures Run(map[], {}, ["data", "data/cache", "data/cache/tmp"])
              == (map["data" := Dir, "data/cache" := Dir, "data/cache/tmp" := Dir], Ok)
  {
    var ps := ["data", "data/cache", "data/cache/tmp"];
    assert "data" + "/" + "cache" == "data/cache";
    assert "data/cache" + "/" + "tmp" == "data/cache/tmp";
    ParentOfChild("data", "cache");
    ParentOfChild("data/cache", "tmp");
    assert LastSlash("data") == -1;
    var e1 := map["data" := Dir];
    var e2 := e1["data/cache" := Dir];
    assert Run(map[], {}, ps) == Run(e1, {}, ps[1..]) by {
      assert MkdirResult(map[], {}, ps[0]) == Ok;
    }
    assert Run(e1, {}, ps[1..]) == Run(e2, {}, ps[2..]) by {
      assert ps[1..][0] == "data/cache" && ps[1..][1..] == ps[2..];
      assert "data/cache" !in e1;
      assert MkdirResult(e1, {}, "data/cache") == Ok;
    }
    assert Run(e2, {}, ps[2..]) == (e2["data/cache/tmp" := Dir], Ok) by {
      assert ps[2..] == ["data/cache/tmp"];
      assert "data/cache/tmp" !in e2;
      assert MkdirResult(e2, {}, "data/cache/tmp") == Ok;
      assert ps[2..][1..] == [];
    }
  }

  /**
   * A regular file as the last component is not an error: `os.path.exists`
   * reports it, so nothing is attempted.
   */
  lemma FileAsLastComponentAccepted()
    ensures EnsureDirsSpec(map["data" := File], {}, "data") == (map["data" := File], Ok)
  {
    var cs := ["data"];
    assert AllNoSlash(cs);
    SplitUnsplit(cs);
    assert Prefixes(cs) == cs;
  }

  /**
   * `ensure_dirs`: split, stop on an empty first component, then create the
   * first component and each further prefix that does not exist yet.
   */
  method EnsureDirs(fs: FileSystem, dirpath: string) returns (r: Outcome)
    requires fs.Valid()
    modifies fs
    ensures fs.Valid()
    ensures (fs.entries, r) == EnsureDirsSpec(old(fs.entries), fs.refused, dirpath)
    ensures Split(dirpath)[0] == "" ==> r == Ok && fs.entries == old(fs.entries)
    ensures Extends(old(fs.entries), fs.entries)
    ensures r == Ok && Split(dirpath)[0] != "" ==> AllExist(fs.entries, Prefixes(Split(dirpath)))
  {
    EnsureDirsKeepsEntries(fs.entries, fs.refused, dirpath);
    if Split(dirpath)[0] != "" && EnsureDirsSpec(fs.entries, fs.refused, dirpath).1 == Ok {
      EnsureDirsCreatesPrefixes(fs.entries, fs.refused, dirpath);
    }
    var components := Split(dirpath);
    if |components| == 0 {
      assert false;
    }
    var partialpath := components[0];
    if partialpath == "" {
      return Ok;
    }
    ghost var ps := Prefixes(components);
    RunUnfold(fs.entries, fs.refused, ps, 0);
    if !fs.Exists(partialpath) {
      r := fs.Mkdir(partialpath);
      if r != Ok {
        return;
      }
    }
    for i := 1 to |components|
      invariant fs.Valid()
      invariant partialpath == ps[i - 1]
      invariant Run(fs.entries, fs.refused, ps[i..]) == Run(old(fs.entries), fs.refused, ps)
    {
      PrefixesStep(components, i - 1);
      RunUnfold(fs.entries, fs.refused, ps, i);
      partialpath := Join(partialpath, components[i]);
      if !fs.Exists(partialpath) {
        r := fs.Mkdir(partialpath);
        if r != Ok {
          return;
        }
      }
    }
    r := Ok;
  }
}
