/** Loader::normalizePath() and Loader::getReferredName(): template names as
    '/'-separated segment lists. */
module LoaderPaths {
  import opened Php

  /** str_replace('\\', '/', s). */
  function Slashes(s: string): (r: string)
    ensures |r| == |s| && '\\' !in r
    ensures forall i :: 0 <= i < |s| ==> r[i] == (if s[i] == '\\' then '/' else s[i])
  {
    seq(|s|, i requires 0 <= i < |s| => if s[i] == '\\' then '/' else s[i])
  }

  /** explode(c, s): the maximal c-free pieces of s, always at least one. */
  function Split(s: string, c: char): (r: seq<string>)
    ensures |r| >= 1
    ensures forall k :: 0 <= k < |r| ==> c !in r[k]
    decreases |s|
  {
    var i := Find(s, 0, c);
    assert c !in s[..i] by {
      assert forall k :: 0 <= k < i ==> s[..i][k] == s[k];
    }
    if i == |s| then [s] else [s[..i]] + Split(s[i + 1..], c)
  }

  /** A character absent from s is absent from every piece of it. */
  lemma {:induction false} SplitAvoids(s: string, c: char, d: char)
    requires d !in s
    ensures forall k :: 0 <= k < |Split(s, c)| ==> d !in Split(s, c)[k]
    decreases |s|
  {
    var i := Find(s, 0, c);
    assert d !in s[..i];
    if i < |s| {
      assert d !in s[i + 1..];
      SplitAvoids(s[i + 1..], c, d);
    }
  }

  /** implode(c, parts). */
  function Join(parts: seq<string>, c: char): (r: string)
    decreases |parts|
  {
    if parts == [] then ""
    else if |parts| == 1 then parts[0]
    else parts[0] + [c] + Join(parts[1..], c)
  }

  /** implode undoes explode. */
  lemma {:induction false} JoinSplit(s: string, c: char)
    ensures Join(Split(s, c), c) == s
    decreases |s|
  {
    var i := Find(s, 0, c);
    if i < |s| {
      var tail := s[i + 1..];
      JoinSplit(tail, c);
      SplitStep(s, c);
      JoinEq(Split(s, c), [s[..i]] + Split(tail, c), c);
      JoinCons(s[..i], Split(tail, c), c);
      Around(s, i);
      Chain(Join(Split(s, c), c), Join([s[..i]] + Split(tail, c), c), s[..i], Join(Split(tail, c), c), tail, s, c);
    }
  }

  lemma Around(s: string, i: nat)
    requires i < |s|
    ensures s[..i] + [s[i]] + s[i + 1..] == s
  {
  }

  lemma Chain(x: string, y: string, p: string, u: string, t: string, s: string, c: char)
    requires x == y && y == p + [c] + u && u == t && p + [c] + t == s
    ensures x == s
  {
  }

  /** One piece of explode(): the text up to the first separator, then the
      pieces of the rest. */
  lemma SplitStep(s: string, c: char)
    requires Find(s, 0, c) < |s|
    ensures Split(s, c) == [s[..Find(s, 0, c)]] + Split(s[Find(s, 0, c) + 1..], c)
  {
  }

  lemma JoinCons(p: string, parts: seq<string>, c: char)
    requires parts != []
    ensures Join([p] + parts, c) == p + [c] + Join(parts, c)
  {
    assert ([p] + parts)[1..] == parts;
  }

  lemma JoinEq(a: seq<string>, b: seq<string>, c: char)
    requires a == b
    ensures Join(a, c) == Join(b, c)
  {
  }

  /** explode undoes implode when no piece holds the separator. */
  lemma {:induction false} SplitJoin(parts: seq<string>, c: char)
    requires |parts| >= 1
    requires forall k :: 0 <= k < |parts| ==> c !in parts[k]
    ensures Split(Join(parts, c), c) == parts
    decreases |parts|
  {
    var s := Join(parts, c);
    var p := parts[0];
    if |parts| == 1 {
      FindAbsent(p, c);
    } else {
      assert s == p + [c] + Join(parts[1..], c);
      FindAfterPiece(s, p, c);
      assert s[..|p|] == p;
      assert s[|p| + 1..] == Join(parts[1..], c);
      SplitJoin(parts[1..], c);
      assert parts == [p] + parts[1..];
    }
  }

  lemma FindAbsent(s: string, c: char)
    requires c !in s
    ensures Find(s, 0, c) == |s|
  {
  }

  lemma FindAfterPiece(s: string, p: string, c: char)
    requires c !in p && |p| < |s| && s[..|p|] == p && s[|p|] == c
    ensures Find(s, 0, c) == |p|
  {
  }

  lemma {:induction false} JoinAppend(a: seq<string>, b: seq<string>, c: char)
    requires a != [] && b != []
    ensures Join(a + b, c) == Join(a, c) + [c] + Join(b, c)
    decreases |a|
  {
    if |a| == 1 {
      assert (a + b)[1..] == b;
    } else {
      assert (a + b)[1..] == a[1..] + b;
      JoinAppend(a[1..], b, c);
    }
  }

  // ------------------------------------------------ traversal parsing

  /** One step of the foreach in normalizePath(): `..` pops a segment unless
      there is none or the last one is `..` itself; `.` is dropped; anything
      else is pushed. */
  function Step(acc: seq<string>, d: string): (r: seq<string>)
    ensures WellFormed(acc) ==> WellFormed(r)
  {
    if d == ".." && acc != [] && acc[|acc| - 1] != ".." then acc[..|acc| - 1]
    else if d != "." then acc + [d]
    else acc
  }

  /** A normalized segment list: no `.`, and `..` only in leading position. */
  predicate WellFormed(segs: seq<string>) {
    (forall i :: 0 <= i < |segs| ==> segs[i] != ".")
    && (forall i, j :: 0 <= i < j < |segs| && segs[j] == ".." ==> segs[i] == "..")
  }

  /** The foreach over the exploded path, starting from acc. */
  function Walk(acc: seq<string>, ds: seq<string>): (r: seq<string>)
    ensures WellFormed(acc) ==> WellFormed(r)
    decreases |ds|
  {
    if ds == [] then acc else Step(Walk(acc, ds[..|ds| - 1]), ds[|ds| - 1])
  }

  /** normalizePath(path). */
  function NormalizedPath(path: string): string {
    Join(Walk([], Split(Slashes(path), '/')), DirectorySeparator)
  }

  /** The path as the loop of normalizePath() computes it. */
  method NormalizePath(path: string) returns (r: string)
    ensures r == NormalizedPath(path)
  {
    var exploded := Split(Slashes(path), '/');
    var returnPath: seq<string> := [];
    for i := 0 to |exploded|
      invariant returnPath == Walk([], exploded[..i])
    {
      assert exploded[..i + 1][..i] == exploded[..i];
      var directory := exploded[i];
      if directory == ".." && returnPath != [] && returnPath[|returnPath| - 1] != ".." {
        returnPath := returnPath[..|returnPath| - 1];
      } else if directory != "." {
        returnPath := returnPath + [directory];
      }
    }
    assert exploded[..|exploded|] == exploded;
    r := Join(returnPath, DirectorySeparator);
  }

  lemma {:induction false} WalkAppend(acc: seq<string>, a: seq<string>, b: seq<string>)
    ensures Walk(acc, a + b) == Walk(Walk(acc, a), b)
    decreases |b|
  {
    if b == [] {
      assert a + b == a;
    } else {
      assert (a + b)[..|a + b| - 1] == a + b[..|b| - 1];
      WalkAppend(acc, a, b[..|b| - 1]);
    }
  }

  /** A segment that traversal parsing keeps as it is. */
  predicate Plain(d: string) {
    d != "." && d != ".." && '/' !in d && '\\' !in d
  }

  /** Plain segments are pushed one by one. */
  lemma {:induction false} WalkPlain(acc: seq<string>, ds: seq<string>)
    requires forall k :: 0 <= k < |ds| ==> Plain(ds[k])
    ensures Walk(acc, ds) == acc + ds
    decreases |ds|
  {
    if ds != [] {
      WalkPlain(acc, ds[..|ds| - 1]);
      assert acc + ds[..|ds| - 1] + [ds[|ds| - 1]] == acc + ds;
    }
  }

  /** A normalized list is a fixed point of traversal parsing. */
  lemma {:induction false} WalkWellFormed(ds: seq<string>)
    requires WellFormed(ds)
    ensures Walk([], ds) == ds
    decreases |ds|
  {
    if ds != [] {
      var init := ds[..|ds| - 1];
      assert WellFormed(init);
      WalkWellFormed(init);
      assert init + [ds[|ds| - 1]] == ds;
      if ds[|ds| - 1] == ".." && init != [] {
        assert init[|init| - 1] == "..";
      }
    }
  }

  /** No character of s is a backslash. */
  predicate NoBackslash(s: string) {
    '\\' !in s
  }

  lemma SlashesFixed(s: string)
    requires '\\' !in s
    ensures Slashes(s) == s
  {
  }

  lemma {:induction false} JoinNoBackslash(parts: seq<string>, c: char)
    requires c != '\\'
    requires forall k :: 0 <= k < |parts| ==> '\\' !in parts[k]
    ensures '\\' !in Join(parts, c)
    decreases |parts|
  {
    if |parts| > 1 {
      JoinNoBackslash(parts[1..], c);
    }
  }

  /** Every segment Walk emits came from its input or its accumulator. */
  lemma {:induction false} WalkFrom(acc: seq<string>, ds: seq<string>, p: string -> bool)
    requires forall k :: 0 <= k < |acc| ==> p(acc[k])
    requires forall k :: 0 <= k < |ds| ==> p(ds[k])
    ensures forall k :: 0 <= k < |Walk(acc, ds)| ==> p(Walk(acc, ds)[k])
    decreases |ds|
  {
    if ds != [] {
      WalkFrom(acc, ds[..|ds| - 1], p);
    }
  }

  /** The segments of a normalized path: no `.`, and `..` only at the front. */
  lemma NormalizedPathShape(path: string)
    ensures WellFormed(Split(NormalizedPath(path), DirectorySeparator))
  {
    var segs := Walk([], Split(Slashes(path), '/'));
    WalkFrom([], Split(Slashes(path), '/'), d => '/' !in d);
    if segs == [] {
      assert Split("", DirectorySeparator) == [""];
    } else {
      SplitJoin(segs, DirectorySeparator);
    }
  }

  /** Normalizing a normalized path changes nothing. */
  lemma NormalizePathIdempotent(path: string)
    ensures NormalizedPath(NormalizedPath(path)) == NormalizedPath(path)
  {
    var exploded := Split(Slashes(path), '/');
    var segs := Walk([], exploded);
    var q := NormalizedPath(path);
    SplitAvoids(Slashes(path), '/', '\\');
    WalkFrom([], exploded, d => '/' !in d && '\\' !in d);
    JoinNoBackslash(segs, DirectorySeparator);
    SlashesFixed(q);
    if segs == [] {
      assert q == "";
      assert Split(q, '/') == [""];
      assert Walk([], [""]) == [""];
    } else {
      SplitJoin(segs, '/');
      WalkWellFormed(segs);
    }
  }

  // ------------------------------------------------ referred names

  predicate IsSchemeChar(c: char) {
    IsAsciiLetter(c) || IsDigit(c) || c == '+' || c == '.' || c == '-'
  }

  /** The first index at or after i whose character is not in `[a-z0-9+.-]`
      (case-insensitively). */
  function SkipScheme(s: string, i: nat): (j: nat)
    requires i <= |s|
    ensures i <= j <= |s|
    ensures forall k :: i <= k < j ==> IsSchemeChar(s[k])
    ensures j == |s| || !IsSchemeChar(s[j])
    decreases |s| - i
  {
    if i == |s| || !IsSchemeChar(s[i]) then i else SkipScheme(s, i + 1)
  }

  /** The anchored, case-insensitive `/|\\|[a-z][a-z0-9+.-]*:` test: the name
      starts with a slash, a backslash, or a scheme such as `file:`. */
  predicate IsAbsoluteName(name: string) {
    |name| > 0
    && (name[0] == '/' || name[0] == '\\'
        || (IsAsciiLetter(name[0]) && SkipScheme(name, 1) < |name| && name[SkipScheme(name, 1)] == ':'))
  }

  /** getReferredName(name, referringName); the base directory is never set,
      so only the shape of the name decides. */
  function ReferredName(name: string, referringName: string): (r: string)
    ensures IsAbsoluteName(name) ==> r == name
  {
    if IsAbsoluteName(name) then name
    else NormalizedPath(referringName + "/../" + name)
  }

  /** A relative name is looked up in the directory of the referring template:
      `dirs/file` referring to `ns` gives `dirs/ns`. */
  lemma ReferredNameSibling(dirs: seq<string>, file: string, ns: seq<string>)
    requires ns != []
    requires forall k :: 0 <= k < |dirs| ==> Plain(dirs[k])
    requires forall k :: 0 <= k < |ns| ==> Plain(ns[k])
    requires Plain(file)
    requires !IsAbsoluteName(Join(ns, '/'))
    ensures ReferredName(Join(ns, '/'), Join(dirs + [file], '/')) == Join(dirs + ns, '/')
  {
    var parts := SiblingParts(dirs, file, ns);
    var path := Join(parts, '/');
    JoinNoBackslash(parts, '/');
    SplitJoin(parts, '/');
    SiblingWalk(dirs, file, ns);
    ReferredRelative(Join(ns, '/'), Join(dirs + [file], '/'));
    NormalizedEq(Join(dirs + [file], '/') + "/../" + Join(ns, '/'), path);
    NormalizedUnslashed(path);
    WalkEq(Split(path, '/'), parts);
    JoinEq(Walk([], parts), dirs + ns, DirectorySeparator);
  }

  lemma ReferredRelative(name: string, referringName: string)
    requires !IsAbsoluteName(name)
    ensures ReferredName(name, referringName) == NormalizedPath(referringName + "/../" + name)
  {
  }

  lemma NormalizedEq(a: string, b: string)
    requires a == b
    ensures NormalizedPath(a) == NormalizedPath(b)
  {
  }

  /** A path without backslashes is split on `/` as it is. */
  lemma NormalizedUnslashed(path: string)
    requires '\\' !in path
    ensures NormalizedPath(path) == Join(Walk([], Split(path, '/')), DirectorySeparator)
  {
    SlashesFixed(path);
  }

  lemma WalkEq(a: seq<string>, b: seq<string>)
    requires a == b
    ensures Join(Walk([], a), DirectorySeparator) == Join(Walk([], b), DirectorySeparator)
  {
  }

  /** The path getReferredName() builds, as a segment list. */
  lemma SiblingParts(dirs: seq<string>, file: string, ns: seq<string>) returns (parts: seq<string>)
    requires ns != []
    ensures parts == dirs + [file] + [".."] + ns
    ensures Join(parts, '/') == Join(dirs + [file], '/') + "/../" + Join(ns, '/')
  {
    parts := dirs + [file] + [".."] + ns;
    JoinAppend(dirs + [file], [".."] + ns, '/');
    JoinAppend([".."], ns, '/');
    assert Join([".."], '/') == "..";
    assert parts == (dirs + [file]) + ([".."] + ns);
  }

  lemma SiblingWalk(dirs: seq<string>, file: string, ns: seq<string>)
    requires forall k :: 0 <= k < |dirs| ==> Plain(dirs[k])
    requires forall k :: 0 <= k < |ns| ==> Plain(ns[k])
    requires Plain(file)
    ensures Walk([], dirs + [file] + [".."] + ns) == dirs + ns
  {
    var a := dirs + [file];
    var b := [".."] + ns;
    assert dirs + [file] + [".."] + ns == a + b;
    WalkAppend([], a, b);
    PlainWalk(dirs, file);
    WalkAppend(a, [".."], ns);
    WalkUp(a);
    WalkPlain(dirs, ns);
  }

  lemma PlainWalk(dirs: seq<string>, file: string)
    requires forall k :: 0 <= k < |dirs| ==> Plain(dirs[k])
    requires Plain(file)
    ensures Walk([], dirs + [file]) == dirs + [file]
  {
    var a := dirs + [file];
    assert forall k :: 0 <= k < |a| ==> Plain(a[k]);
    WalkPlain([], a);
    assert [] + a == a;
  }

  /** `..` after a plain segment removes it. */
  lemma WalkUp(a: seq<string>)
    requires a != [] && a[|a| - 1] != ".."
    ensures Walk(a, [".."]) == a[..|a| - 1]
  {
    assert [".."][..0] == [];
    assert Walk(a, [".."]) == Step(Walk(a, []), "..");
  }

  // ------------------------------------------------ identifiers

  /** getUniqueId(): the name is its own cache identifier, so distinct names
      never share compiled code. */
  function UniqueId(name: string): (id: string)
    ensures |id| == |name|
  {
    name
  }

  lemma UniqueIdInjective(a: string, b: string)
    requires UniqueId(a) == UniqueId(b)
    ensures a == b
  {
  }

  /** isExpired(): templates never expire through the loader. */
  function IsExpired(name: string, time: int): (expired: bool)
    ensures !expired
  {
    false
  }
}
