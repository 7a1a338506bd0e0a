/** Northrook\Latte\Compiler\TemplateChainLoader: a priority-keyed registry of
    template directories that locks itself on the first lookup, and the search
    that maps a template name to a file. The filesystem is the set `fs` of the
    paths that exist; Normalize::path is the parameter `normalize`. */
module TemplateChain {
  import opened Php

  /** The `bool|int $priority` argument of add(). */
  datatype Priority = Flag(b: bool) | Level(n: int)

  /** The array key add() stores a directory under. In
      `(true === $priority) ? PHP_INT_MAX : $priority ?? count(...)` the `??`
      binds tighter than `?:`, and a bool|int is never null, so the directory
      count is never used; the default `false` becomes array key 0. */
  function PriorityKey(p: Priority): (k: int)
    ensures p == Flag(true) ==> k == PhpIntMax
    ensures p == Flag(false) ==> k == 0
    ensures p.Level? ==> k == p.n
  {
    match p
    case Flag(b) => if b then PhpIntMax else 0
    case Level(n) => n
  }

  /** No path is stored under two priorities. */
  ghost predicate Injective(m: map<int, string>) {
    forall k, k' :: k in m && k' in m && k != k' ==> m[k] != m[k']
  }

  /** The map after `unset` of the entry holding `path` and
      `$this->templateDirectories[$key] = $path`. */
  function WithDirectory(m: map<int, string>, path: string, key: int): (r: map<int, string>)
    ensures key in r && r[key] == path
    ensures forall k :: k in r && k != key ==> k in m && r[k] == m[k] && m[k] != path
    ensures forall k :: k in m && k != key && m[k] != path ==> k in r
    ensures Injective(m) ==> Injective(r)
  {
    (map k | k in m && m[k] != path :: m[k])[key := path]
  }

  /** Two default-priority adds of different paths: the second replaces the first. */
  lemma DefaultAddsCollide(m: map<int, string>, a: string, b: string)
    requires a != b
    ensures var r := WithDirectory(WithDirectory(m, a, PriorityKey(Flag(false))), b, PriorityKey(Flag(false)));
            r[0] == b && a !in r.Values
  {
  }

  /** Re-adding a stored path moves it: afterwards it is stored once, under the new key. */
  lemma ReAddMoves(m: map<int, string>, path: string, key: int)
    ensures forall k :: k in WithDirectory(m, path, key) && WithDirectory(m, path, key)[k] == path ==> k == key
  {
  }

  // ------------------------------------------------------------ resolution

  /** A non-empty set of keys has an element (stated for the `:|` choices). */
  lemma NonEmpty(ks: set<int>)
    requires ks != {}
    ensures exists x :: x in ks
  {
    if forall y :: y !in ks {
      assert false;
    }
  }

  /** The highest priority among `ks`: the next directory after krsort. */
  ghost function MaxKey(ks: set<int>): (k: int)
    requires ks != {}
    ensures k in ks && forall j :: j in ks ==> j <= k
    decreases |ks|
  {
    NonEmpty(ks);
    var x :| x in ks;
    var rest := ks - {x};
    if rest == {} then
      assert forall j :: j in ks ==> j == x by {
        forall j | j in ks ensures j == x {
          assert j in rest || j == x;
        }
      }
      x
    else
      var m := MaxKey(rest);
      assert forall j :: j in ks ==> j == x || j in rest;
      if x > m then x else m
  }

  /** What one directory answers for the normalised name `t`: `t` itself when it
      already starts with the directory and the directory exists, otherwise
      `dir/t` when that file exists. */
  function Probe(t: string, dir: string, fs: set<string>): (r: Option<string>)
    ensures r.Some? <==> (StartsWith(t, dir) && dir in fs) || JoinPath(dir, t) in fs
    ensures r.Some? ==> r.value == t || r.value == JoinPath(dir, t)
    ensures r.Some? && r.value != t ==> r.value in fs
  {
    if StartsWith(t, dir) && dir in fs then Some(t)
    else if JoinPath(dir, t) in fs then Some(JoinPath(dir, t))
    else None
  }

  /** The foreach over the directories still to visit, in descending key order. */
  ghost function SearchFrom(t: string, m: map<int, string>, ks: set<int>, fs: set<string>): Option<string>
    requires ks <= m.Keys
    decreases |ks|
  {
    if ks == {} then None
    else
      var k := MaxKey(ks);
      var p := Probe(t, m[k], fs);
      if p.Some? then p else SearchFrom(t, m, ks - {k}, fs)
  }

  /** One step of the search: the highest remaining directory, or the rest. */
  lemma SearchStep(t: string, m: map<int, string>, ks: set<int>, fs: set<string>)
    requires ks <= m.Keys && ks != {}
    ensures var k := MaxKey(ks);
      SearchFrom(t, m, ks, fs) == if Probe(t, m[k], fs).Some? then Probe(t, m[k], fs) else SearchFrom(t, m, ks - {k}, fs)
  {
  }

  /** The search answers with the highest-priority directory that answers. */
  lemma {:induction false} SearchFindsHighest(t: string, m: map<int, string>, ks: set<int>, fs: set<string>, k: int)
    requires ks <= m.Keys && k in ks
    requires Probe(t, m[k], fs).Some?
    requires forall j :: j in ks && j > k ==> Probe(t, m[j], fs).None?
    ensures SearchFrom(t, m, ks, fs) == Probe(t, m[k], fs)
    decreases |ks|
  {
    var top := MaxKey(ks);
    if top != k {
      assert top > k;
      SearchFindsHighest(t, m, ks - {top}, fs, k);
    }
  }

  /** The search fails exactly when no directory answers. */
  lemma {:induction false} SearchFailsIffNoneAnswers(t: string, m: map<int, string>, ks: set<int>, fs: set<string>)
    requires ks <= m.Keys
    ensures SearchFrom(t, m, ks, fs).None? <==> forall j :: j in ks ==> Probe(t, m[j], fs).None?
    decreases |ks|
  {
    if ks != {} {
      SearchFailsIffNoneAnswers(t, m, ks - {MaxKey(ks)}, fs);
    }
  }

  /** Whatever the search returns came from some directory that answered. */
  lemma {:induction false} SearchAnswerFrom(t: string, m: map<int, string>, ks: set<int>, fs: set<string>)
    requires ks <= m.Keys
    requires SearchFrom(t, m, ks, fs).Some?
    ensures exists k :: k in ks && Probe(t, m[k], fs) == SearchFrom(t, m, ks, fs)
                     && forall j :: j in ks && j > k ==> Probe(t, m[j], fs).None?
    decreases |ks|
  {
    var top := MaxKey(ks);
    if Probe(t, m[top], fs).None? {
      SearchAnswerFrom(t, m, ks - {top}, fs);
    }
  }

  /** TemplateChainLoader::load once the directories are sorted. */
  ghost function Resolve(template: string, projectDirectory: string, m: map<int, string>,
                         fs: set<string>, normalize: string -> string): string
  {
    if !EndsWith(template, ".latte") then template
    else
      var t := normalize(template);
      if StartsWith(t, projectDirectory) && t in fs then t
      else match SearchFrom(t, m, m.Keys, fs)
        case Some(p) => p
        case None => t
  }

  /** The highest-priority directory holding the template decides the result. */
  lemma ResolveHighestPriority(template: string, projectDirectory: string, m: map<int, string>,
                               fs: set<string>, normalize: string -> string, k: int)
    requires EndsWith(template, ".latte")
    requires !(StartsWith(normalize(template), projectDirectory) && normalize(template) in fs)
    requires k in m && Probe(normalize(template), m[k], fs).Some?
    requires forall j :: j in m && j > k ==> Probe(normalize(template), m[j], fs).None?
    ensures Resolve(template, projectDirectory, m, fs, normalize) == Probe(normalize(template), m[k], fs).value
  {
    SearchFindsHighest(normalize(template), m, m.Keys, fs, k);
  }

  /** Two directories both holding the file: the lower-priority one's path is
      never returned. */
  lemma HigherPriorityWins(template: string, projectDirectory: string, m: map<int, string>,
                           fs: set<string>, normalize: string -> string, hi: int, lo: int)
    requires Injective(m)
    requires EndsWith(template, ".latte")
    requires hi in m && lo in m && hi > lo
    requires JoinPath(m[hi], normalize(template)) in fs
    ensures Resolve(template, projectDirectory, m, fs, normalize) != JoinPath(m[lo], normalize(template))
  {
    var t := normalize(template);
    var r := Resolve(template, projectDirectory, m, fs, normalize);
    if !(StartsWith(t, projectDirectory) && t in fs) {
      SearchFailsIffNoneAnswers(t, m, m.Keys, fs);
      assert Probe(t, m[hi], fs).Some?;
      SearchAnswerFrom(t, m, m.Keys, fs);
      var k :| k in m.Keys && Probe(t, m[k], fs) == SearchFrom(t, m, m.Keys, fs)
             && forall j :: j in m.Keys && j > k ==> Probe(t, m[j], fs).None?;
      assert k >= hi;
      if r == JoinPath(m[lo], t) {
        assert r == JoinPath(m[k], t);
        JoinPathInjective(m[k], m[lo], t);
      }
    }
  }

  // ------------------------------------------------------------- the class

  class TemplateChainLoader {
    const projectDirectory: string
    var locked: bool
    var directories: map<int, string>

    ghost predicate Valid()
      reads this
    {
      Injective(directories)
    }

    constructor (projectDirectory: string)
      ensures Valid() && !locked && directories == map[]
      ensures this.projectDirectory == projectDirectory
    {
      this.projectDirectory := projectDirectory;
      locked := false;
      directories := map[];
    }

    /** add(): refused with a warning (`warned`) once locked, never an error. */
    method Add(path: string, priority: Priority, normalize: string -> string) returns (warned: bool)
      requires Valid()
      modifies this
      ensures Valid() && locked == old(locked)
      ensures warned == old(locked)
      ensures old(locked) ==> directories == old(directories)
      ensures !old(locked) ==> directories == WithDirectory(old(directories), normalize(path), PriorityKey(priority))
    {
      if locked {
        return true;
      }
      var key := PriorityKey(priority);
      var p := normalize(path);
      var kept := map k | k in directories && directories[k] != p :: directories[k];
      directories := kept[key := p];
      return false;
    }

    /** load(): locks the registry (sorting it once), then searches. */
    method Load(template: string, fs: set<string>, normalize: string -> string) returns (r: string)
      requires Valid()
      modifies this
      ensures Valid() && locked && directories == old(directories)
      ensures !EndsWith(template, ".latte") ==> r == template
      ensures r == Resolve(template, projectDirectory, directories, fs, normalize)
    {
      if !locked {
        locked := true;
      }
      if !EndsWith(template, ".latte") {
        return template;
      }
      var t := normalize(template);
      if StartsWith(t, projectDirectory) && t in fs {
        return t;
      }
      var m := directories;
      ghost var answer := SearchFrom(t, m, m.Keys, fs);
      var remaining := m.Keys;
      while remaining != {}
        invariant directories == m && locked
        invariant remaining <= m.Keys
        invariant SearchFrom(t, m, remaining, fs) == answer
        decreases |remaining|
      {
        ghost var top := MaxKey(remaining);
        assert top in remaining && forall j :: j in remaining ==> j <= top;
        var k :| k in remaining && forall j :: j in remaining ==> j <= k;
        assert k == MaxKey(remaining);
        SearchStep(t, m, remaining, fs);
        var dir := m[k];
        if StartsWith(t, dir) && dir in fs {
          return t;
        }
        var path := JoinPath(dir, t);
        if path in fs {
          return path;
        }
        remaining := remaining - {k};
      }
      return t;
    }
  }
}
