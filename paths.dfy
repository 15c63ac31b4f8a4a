/**
 * Path strings as `ensure_dirs` sees them: the split of a path on `/`
 * (what `re.split(r'/', dirpath)` returns), POSIX `os.path.join` of two
 * parts, and the cumulative prefixes that the function builds one component
 * at a time.
 */
module Paths {

  /** True when `c` holds no separator, as every piece of a split does. */
  predicate NoSlash(c: string) {
    forall i :: 0 <= i < |c| ==> c[i] != '/'
  }

  predicate AllNoSlash(cs: seq<string>) {
    forall i :: 0 <= i < |cs| ==> NoSlash(cs[i])
  }

  predicate EndsWithSlash(p: string) {
    |p| > 0 && p[|p| - 1] == '/'
  }

  /** Number of separators in `s`. */
  function SlashCount(s: string): nat {
    if s == [] then 0 else (if s[0] == '/' then 1 else 0) + SlashCount(s[1..])
  }

  /**
   * Splitting on `/`: one more piece than there are separators, never an
   * empty list, and the first piece is empty exactly when the input is empty
   * or starts with a separator.
   */
  function Split(s: string): (cs: seq<string>)
    ensures |cs| == SlashCount(s) + 1
    ensures AllNoSlash(cs)
    ensures cs[0] == "" <==> s == "" || s[0] == '/'
    decreases |s|
  {
    if s == [] then [""]
    else
      var rest := Split(s[1..]);
      if s[0] == '/' then [""] + rest
      else [[s[0]] + rest[0]] + rest[1..]
  }

  /** The pieces glued back together with `/` between neighbours. */
  function Unsplit(cs: seq<string>): string
    requires |cs| >= 1
    decreases |cs|
  {
    if |cs| == 1 then cs[0] else cs[0] + "/" + Unsplit(cs[1..])
  }

  /** Gluing the pieces of a split gives back the original string. */
  lemma {:induction false} UnsplitSplit(s: string)
    ensures Unsplit(Split(s)) == s
    decreases |s|
  {
    if s != [] {
      var rest := Split(s[1..]);
      UnsplitSplit(s[1..]);
      if s[0] == '/' {
        assert ([""] + rest)[1..] == rest;
      } else {
        var cs := [[s[0]] + rest[0]] + rest[1..];
        assert cs[1..] == rest[1..];
        if |rest| > 1 {
          assert Unsplit(rest) == rest[0] + "/" + Unsplit(rest[1..]);
        }
        assert s == [s[0]] + s[1..];
      }
    }
  }

  /** Splitting `c + s` when `c` has no separator glues `c` to the first piece. */
  lemma {:induction false} SplitPrepend(c: string, s: string)
    requires NoSlash(c)
    ensures Split(c + s) == [c + Split(s)[0]] + Split(s)[1..]
    decreases |c|
  {
    if c != [] {
      assert (c + s)[1..] == c[1..] + s;
      SplitPrepend(c[1..], s);
      assert [c[0]] + (c[1..] + Split(s)[0]) == c + Split(s)[0];
    } else {
      assert c + s == s;
      assert Split(s) == [Split(s)[0]] + Split(s)[1..];
      assert c + Split(s)[0] == Split(s)[0];
    }
  }

  /** Splitting the glued pieces gives back the pieces, when none holds a separator. */
  lemma {:induction false} SplitUnsplit(cs: seq<string>)
    requires |cs| >= 1 && AllNoSlash(cs)
    ensures Split(Unsplit(cs)) == cs
    decreases |cs|
  {
    if |cs| == 1 {
      SplitPrepend(cs[0], "");
      assert cs[0] + "" == cs[0];
    } else {
      var u := Unsplit(cs[1..]);
      SplitUnsplit(cs[1..]);
      assert Split("/" + u) == [""] + cs[1..] by {
        assert ("/" + u)[1..] == u;
      }
      SplitPrepend(cs[0], "/" + u);
      assert cs[0] + "/" + u == cs[0] + ("/" + u);
      assert cs[0] + "" == cs[0];
      assert [cs[0]] + cs[1..] == cs;
    }
  }

  /**
   * POSIX `os.path.join(a, b)`: an absolute `b` replaces `a`; otherwise `b`
   * is appended, with a `/` in between unless `a` is empty or already ends in
   * one. A relative `b` never discards `a`.
   */
  function Join(a: string, b: string): (r: string)
    ensures |b| > 0 && b[0] == '/' ==> r == b
    ensures (|b| == 0 || b[0] != '/') ==> a <= r && |a| + |b| <= |r| <= |a| + |b| + 1
  {
    if |b| > 0 && b[0] == '/' then b
    else if a == "" || EndsWithSlash(a) then a + b
    else a + "/" + b
  }

  /**
   * A relative `b` is what a join ends with, after all of `a`; a `/` comes
   * between exactly when `a` is non-empty and does not already end in one.
   */
  lemma {:induction false} JoinEndsWith(a: string, b: string)
    requires |b| == 0 || b[0] != '/'
    ensures Join(a, b) == a + Join(a, b)[|a|..|Join(a, b)| - |b|] + b
    ensures Join(a, b)[|a|..|Join(a, b)| - |b|] == "/" <==> a != "" && !EndsWithSlash(a)
    ensures Join(a, b)[|a|..|Join(a, b)| - |b|] == "" <==> a == "" || EndsWithSlash(a)
  {
    var r := Join(a, b);
    if a == "" || EndsWithSlash(a) {
      assert r[|a|..|r| - |b|] == "";
    } else {
      assert r[|a|..|r| - |b|] == "/";
    }
  }

  /**
   * The name an entry is known by: the path with its trailing separators
   * removed, so that `a/` and `a` name the same directory.
   */
  function Key(p: string): (k: string)
    ensures k <= p && !EndsWithSlash(k)
    decreases |p|
  {
    if EndsWithSlash(p) then Key(p[..|p| - 1]) else p
  }

  /** `Key` drops nothing but separators. */
  lemma {:induction false} KeyDropsSlashes(p: string, i: nat)
    requires |Key(p)| <= i < |p|
    ensures p[i] == '/'
    decreases |p|
  {
    if EndsWithSlash(p) && i < |p| - 1 {
      KeyDropsSlashes(p[..|p| - 1], i);
    }
  }

  /** Index of the last separator in `k`, or -1 when there is none. */
  function LastSlash(k: string): (i: int)
    ensures -1 <= i < |k|
    ensures i >= 0 ==> k[i] == '/'
    ensures forall j :: i < j < |k| ==> k[j] != '/'
    decreases |k|
  {
    if k == [] then -1
    else if k[|k| - 1] == '/' then |k| - 1
    else LastSlash(k[..|k| - 1])
  }

  /**
   * The directory that holds the entry named `k`; "" stands for the working
   * directory.
   */
  function Parent(k: string): string {
    var i := LastSlash(k);
    if i < 0 then "" else Key(k[..i])
  }

  /** The parent of `d/c` is `d`, when `c` is a single non-empty component. */
  lemma {:induction false} ParentOfChild(d: string, c: string)
    requires !EndsWithSlash(d) && c != "" && NoSlash(c)
    ensures Parent(d + "/" + c) == d
  {
    var k := d + "/" + c;
    assert k[|d|] == '/';
    assert forall j :: |d| < j < |k| ==> k[j] == c[j - |d| - 1];
    assert LastSlash(k) == |d|;
    assert k[..|d|] == d;
  }

  /**
   * The cumulative paths of `ensure_dirs`: the first component, then each
   * previous path joined with the next component.
   */
  function Prefixes(cs: seq<string>): (ps: seq<string>)
    requires |cs| >= 1
    ensures |ps| == |cs| && ps[0] == cs[0]
    decreases |cs|
  {
    if |cs| == 1 then [cs[0]]
    else
      var init := Prefixes(cs[..|cs| - 1]);
      init + [Join(init[|init| - 1], cs[|cs| - 1])]
  }

  /** The prefixes of the first `k` components are the first `k` prefixes. */
  lemma {:induction false} PrefixesTruncate(cs: seq<string>, k: nat)
    requires 1 <= k <= |cs|
    ensures Prefixes(cs[..k]) == Prefixes(cs)[..k]
    decreases |cs|
  {
    if k < |cs| {
      var init := cs[..|cs| - 1];
      PrefixesTruncate(init, k);
      assert init[..k] == cs[..k];
      assert Prefixes(cs)[..|cs| - 1] == Prefixes(init);
    } else {
      assert cs[..k] == cs;
    }
  }

  /** Each prefix is the previous one joined with the next component. */
  lemma {:induction false} PrefixesStep(cs: seq<string>, i: nat)
    requires i + 1 < |cs|
    ensures Prefixes(cs)[i + 1] == Join(Prefixes(cs)[i], cs[i + 1])
  {
    var t := cs[..i + 2];
    var pt := Prefixes(t);
    var init := Prefixes(t[..i + 1]);
    assert pt == init + [Join(init[i], t[i + 1])];
    assert t[..i + 1] == cs[..i + 1];
    PrefixesTruncate(cs, i + 2);
    PrefixesTruncate(cs, i + 1);
    assert pt[i + 1] == Prefixes(cs)[i + 1];
    assert init[i] == Prefixes(cs)[i];
  }

  /** Each prefix starts with the previous one: joining never resets the path. */
  lemma {:induction false} PrefixesNested(cs: seq<string>, i: nat, j: nat)
    requires AllNoSlash(cs) && i <= j < |cs|
    ensures Prefixes(cs)[i] <= Prefixes(cs)[j]
    decreases j - i
  {
    if i < j {
      PrefixesNested(cs, i, j - 1);
      PrefixesStep(cs, j - 1);
      assert NoSlash(cs[j]);
    }
  }

  /** The non-empty components, in order. */
  function NonEmpty(cs: seq<string>): (ne: seq<string>)
    ensures |ne| <= |cs|
    ensures forall i :: 0 <= i < |ne| ==> ne[i] != ""
    ensures |cs| > 0 && cs[0] != "" ==> |ne| > 0 && ne[0] == cs[0]
    decreases |cs|
  {
    if cs == [] then []
    else
      var init := NonEmpty(cs[..|cs| - 1]);
      if cs[|cs| - 1] == "" then init else init + [cs[|cs| - 1]]
  }

  lemma {:induction false} NonEmptyNoSlash(cs: seq<string>)
    requires AllNoSlash(cs)
    ensures AllNoSlash(NonEmpty(cs))
    decreases |cs|
  {
    if cs != [] {
      NonEmptyNoSlash(cs[..|cs| - 1]);
    }
  }

  /** A path with every component present, empty pieces dropped. */
  function Canonical(cs: seq<string>): string
    requires |cs| >= 1 && cs[0] != ""
  {
    Unsplit(NonEmpty(cs))
  }

  /** The canonical path of the first i+1 components. */
  function CanonicalPrefix(cs: seq<string>, i: nat): string
    requires i < |cs| && cs[0] != ""
  {
    Canonical(cs[..i + 1])
  }

  lemma {:induction false} UnsplitSnoc(xs: seq<string>, c: string)
    requires |xs| >= 1
    ensures Unsplit(xs + [c]) == Unsplit(xs) + "/" + c
    decreases |xs|
  {
    if |xs| > 1 {
      assert (xs + [c])[1..] == xs[1..] + [c];
      UnsplitSnoc(xs[1..], c);
    }
  }

  /** Glued non-empty pieces without separators start with the first piece and end in a non-separator. */
  lemma {:induction false} UnsplitEnds(xs: seq<string>)
    requires |xs| >= 1 && AllNoSlash(xs)
    requires forall i :: 0 <= i < |xs| ==> xs[i] != ""
    ensures xs[0] <= Unsplit(xs) && !EndsWithSlash(Unsplit(xs))
    decreases |xs|
  {
    if |xs| > 1 {
      UnsplitEnds(xs[1..]);
      assert NoSlash(xs[0]);
    } else {
      assert NoSlash(xs[0]);
    }
  }

  /** The canonical path starts with the first component and ends in a non-separator. */
  lemma {:induction false} CanonicalEnds(cs: seq<string>)
    requires |cs| >= 1 && cs[0] != "" && AllNoSlash(cs)
    ensures cs[0] <= Canonical(cs) && !EndsWithSlash(Canonical(cs))
  {
    NonEmptyNoSlash(cs);
    UnsplitEnds(NonEmpty(cs));
  }

  /**
   * The shape of every prefix: the components so far with empty ones dropped,
   * followed by one `/` when the latest component was empty.
   */
  lemma {:induction false} PrefixShape(cs: seq<string>)
    requires |cs| >= 1 && cs[0] != "" && AllNoSlash(cs)
    ensures Prefixes(cs)[|cs| - 1] ==
              Canonical(cs) + (if cs[|cs| - 1] == "" then "/" else "")
    decreases |cs|
  {
    if |cs| > 1 {
      var init := cs[..|cs| - 1];
      var c := cs[|cs| - 1];
      assert AllNoSlash(init) && init[0] == cs[0];
      PrefixShape(init);
      CanonicalEnds(init);
      var d := Canonical(init);
      var a := Prefixes(init)[|init| - 1];
      assert Prefixes(cs)[|cs| - 1] == Join(a, c);
      JoinOntoShape(d, init[|init| - 1] == "", c);
      if c != "" {
        assert NonEmpty(cs) == NonEmpty(init) + [c];
        UnsplitSnoc(NonEmpty(init), c);
      }
    }
  }

  /** Joining a component onto a prefix of the shape above. */
  lemma {:induction false} JoinOntoShape(d: string, slash: bool, c: string)
    requires |d| > 0 && !EndsWithSlash(d) && NoSlash(c)
    ensures Join(d + (if slash then "/" else ""), c) ==
              if c == "" then d + "/" else d + "/" + c
  {
    var a := d + (if slash then "/" else "");
    if c == "" {
      assert a + c == a;
    } else {
      assert c[0] != '/';
      if slash {
        assert a + c == d + "/" + c;
      } else {
        assert a == d;
      }
    }
  }

  /** The entry each prefix names is the canonical path of the components so far. */
  lemma {:induction false} PrefixKey(cs: seq<string>, i: nat)
    requires i < |cs| && cs[0] != "" && AllNoSlash(cs)
    ensures Key(Prefixes(cs)[i]) == Canonical(cs[..i + 1])
    ensures cs[0] <= Key(Prefixes(cs)[i])
    ensures cs[i] == "" <==> EndsWithSlash(Prefixes(cs)[i])
  {
    var t := cs[..i + 1];
    assert t[0] == cs[0] && t[|t| - 1] == cs[i] && AllNoSlash(t);
    PrefixShape(t);
    CanonicalEnds(t);
    PrefixesTruncate(cs, i + 1);
    assert Prefixes(cs)[i] == Prefixes(t)[|t| - 1];
    KeyOfShape(Canonical(t), cs[i] == "");
  }

  /** Dropping the one trailing separator of a prefix gives its entry name. */
  lemma {:induction false} KeyOfShape(d: string, slash: bool)
    requires !EndsWithSlash(d)
    ensures Key(d + (if slash then "/" else "")) == d
    ensures EndsWithSlash(d + (if slash then "/" else "")) == slash
  {
    if slash {
      assert (d + "/")[..|d + "/"| - 1] == d;
    } else {
      assert d + "" == d;
    }
  }

  /**
   * The next prefix lies beneath the current one: an empty component names
   * the same entry with a trailing `/`, any other one a child of it.
   */
  predicate Beneath(p: string, q: string) {
    && (EndsWithSlash(q) ==> Key(q) == Key(p))
    && (!EndsWithSlash(q) ==> Parent(Key(q)) == Key(p) && Key(q) != "")
  }

  lemma {:induction false} PrefixesBeneath(cs: seq<string>, i: nat)
    requires i + 1 < |cs| && cs[0] != "" && AllNoSlash(cs)
    ensures Beneath(Prefixes(cs)[i], Prefixes(cs)[i + 1])
  {
    PrefixKey(cs, i);
    PrefixKey(cs, i + 1);
    var t := cs[..i + 2];
    assert t[..|t| - 1] == cs[..i + 1];
    var d := Canonical(cs[..i + 1]);
    assert t[0] == cs[0] && AllNoSlash(t);
    PrefixShape(cs[..i + 1]);
    if cs[i + 1] != "" {
      UnsplitSnoc(NonEmpty(cs[..i + 1]), cs[i + 1]);
      assert Canonical(t) == d + "/" + cs[i + 1];
      ParentOfChild(d, cs[i + 1]);
      assert NoSlash(cs[i + 1]);
    }
  }

  /** With no empty component, each prefix is the first components glued with `/`. */
  lemma {:induction false} PrefixWhenNoneEmpty(cs: seq<string>, i: nat)
    requires forall j :: 0 <= j < |cs| ==> cs[j] != ""
    requires AllNoSlash(cs) && i < |cs|
    ensures Prefixes(cs)[i] == Unsplit(cs[..i + 1])
  {
    PrefixKey(cs, i);
    var t := cs[..i + 1];
    assert forall j :: 0 <= j < |t| ==> t[j] != "";
    NonEmptyAll(t);
  }

  /**
   * When no component is empty, the i-th prefix is the input cut just before
   * its (i+1)-th separator, and the last prefix is the input itself.
   */
  lemma {:induction false} PrefixesOfPath(s: string, i: nat)
    requires forall j :: 0 <= j < |Split(s)| ==> Split(s)[j] != ""
    requires i < |Split(s)|
    ensures Prefixes(Split(s))[i] == Unsplit(Split(s)[..i + 1])
    ensures Prefixes(Split(s))[|Split(s)| - 1] == s
  {
    var cs := Split(s);
    PrefixWhenNoneEmpty(cs, i);
    PrefixWhenNoneEmpty(cs, |cs| - 1);
    assert cs[..|cs|] == cs;
    UnsplitSplit(s);
  }

  lemma {:induction false} NonEmptyAll(cs: seq<string>)
    requires forall j :: 0 <= j < |cs| ==> cs[j] != ""
    ensures NonEmpty(cs) == cs
    decreases |cs|
  {
    if cs != [] {
      NonEmptyAll(cs[..|cs| - 1]);
      assert cs[..|cs| - 1] + [cs[|cs| - 1]] == cs;
    }
  }
}
