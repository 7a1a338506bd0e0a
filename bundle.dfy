/** Northrook\Latte\LatteBundle: the registry the application configures
    (extensions, pre- and postprocessors, global variables, namespaced
    template directories) and the one Render it builds from them on first
    use. Starting the Latte engine itself is outside the model; the engine's
    loader is a parameter. */
module Bundle {
  import opened Php
  import opened Environments
  import Rendering
  import TemplateLoader

  /** A TemplateParser instance, known by its class name. */
  datatype Parser = Parser(className: string, id: nat)

  /** The values of a PHP array, in order: what a foreach visits. */
  function Values<T>(a: Assoc<T>): (vs: seq<T>)
    ensures |vs| == |a| && forall i :: 0 <= i < |a| ==> vs[i] == a[i].1
    decreases |a|
  {
    if a == [] then [] else [a[0].1] + Values(a[1..])
  }

  /** The preprocessor array after addPreprocessor(...parsers) — and, as
      written, after addPostprocessor(...parsers) too: each parser is stored
      under its class name, so a later instance of a class replaces the
      earlier one in its place. */
  function AddParsers(preprocessors: Assoc<Parser>, parsers: seq<Parser>): Assoc<Parser>
    decreases |parsers|
  {
    if parsers == [] then preprocessors
    else
      var init := AddParsers(preprocessors, parsers[..|parsers| - 1]);
      Put(init, parsers[|parsers| - 1].className, parsers[|parsers| - 1])
  }

  /** Index i holds a parser of the class and no later one does. */
  predicate LastAt(parsers: seq<Parser>, name: string, i: int) {
    && 0 <= i < |parsers| && parsers[i].className == name
    && forall j :: i < j < |parsers| ==> parsers[j].className != name
  }

  /** The last parser of the given class in a list, if any. */
  function LastParser(parsers: seq<Parser>, name: string): (r: Option<Parser>)
    ensures r.Some? ==> r.value in parsers && r.value.className == name
    ensures r.Some? ==> exists i :: LastAt(parsers, name, i) && parsers[i] == r.value
    ensures r.None? <==> forall i :: 0 <= i < |parsers| ==> parsers[i].className != name
    decreases |parsers|
  {
    if parsers == [] then None
    else if parsers[|parsers| - 1].className == name then Some(parsers[|parsers| - 1])
    else
      var r := LastParser(parsers[..|parsers| - 1], name);
      assert forall i :: 0 <= i < |parsers| - 1 ==> parsers[..|parsers| - 1][i] == parsers[i];
      if r.Some? then
        var i :| LastAt(parsers[..|parsers| - 1], name, i) && parsers[..|parsers| - 1][i] == r.value;
        assert LastAt(parsers, name, i);
        r
      else r
  }

  /** After adding, each class name holds the last parser given for it, and
      other class names keep their parser. */
  lemma {:induction false} AddParsersLookup(preprocessors: Assoc<Parser>, parsers: seq<Parser>, name: string)
    ensures Lookup(AddParsers(preprocessors, parsers), name) ==
      if LastParser(parsers, name).Some? then LastParser(parsers, name) else Lookup(preprocessors, name)
    decreases |parsers|
  {
    if parsers != [] {
      var init := parsers[..|parsers| - 1];
      var p := parsers[|parsers| - 1];
      AddParsersLookup(preprocessors, init, name);
      PutLookup(AddParsers(preprocessors, init), p.className, p, name);
    }
  }

  /** The key addTemplateDirectory(path, namespace) stores under: the
      normalised namespace, or the normalised last segment of the path when no
      namespace is given. normalizeKey and basename are library functions and
      parameters. */
  function DirectoryKey(path: string, namespace: Option<string>,
                        normalizeKey: string -> string, basename: string -> string): (k: string)
    ensures namespace.Some? ==> k == normalizeKey(namespace.value)
    ensures namespace.None? ==> k == normalizeKey(basename(path))
  {
    normalizeKey(if namespace.Some? then namespace.value else basename(path))
  }

  /** The template directory array after addTemplateDirectory(): the
      normalised path under its key, replacing an earlier directory with that
      key in its place. */
  function AddDirectory(directories: Assoc<string>, path: string, namespace: Option<string>,
                        normalizeKey: string -> string, normalizePath: string -> string,
                        basename: string -> string): (r: Assoc<string>)
    ensures var key := DirectoryKey(path, namespace, normalizeKey, basename);
      && Lookup(r, key) == Some(normalizePath(path))
      && (forall j :: j != key ==> Lookup(r, j) == Lookup(directories, j))
      && KeysOf(r) == if key in KeysOf(directories) then KeysOf(directories) else KeysOf(directories) + [key]
  {
    var key := DirectoryKey(path, namespace, normalizeKey, basename);
    forall j ensures Lookup(Put(directories, key, normalizePath(path)), j) ==
      if j == key then Some(normalizePath(path)) else Lookup(directories, j) {
      PutLookup(directories, key, normalizePath(path), j);
    }
    Put(directories, key, normalizePath(path))
  }

  /** The keys of a PHP array passed to setTemplateDirectories(). */
  datatype Key = IntKey(n: int) | StrKey(s: string)

  /** A string argument, or an array of directories. */
  datatype DirectoriesArg = OneDirectory(path: string) | DirectoryArray(entries: seq<(Key, string)>)

  /** `(array) $templateDirectories`: a string becomes `[0 => string]`. */
  function AsArray(arg: DirectoriesArg): (entries: seq<(Key, string)>)
    ensures arg.OneDirectory? ==> entries == [(IntKey(0), arg.path)]
    ensures arg.DirectoryArray? ==> entries == arg.entries
  {
    match arg
      case OneDirectory(path) => [(IntKey(0), path)]
      case DirectoryArray(entries) => entries
  }

  /** An integer key gives no namespace; a string key is the namespace. */
  function NamespaceOf(k: Key): (ns: Option<string>)
    ensures k.IntKey? <==> ns.None?
    ensures k.StrKey? ==> ns == Some(k.s)
  {
    if k.IntKey? then None else Some(k.s)
  }

  /** setTemplateDirectories(): addTemplateDirectory() for every entry. */
  function SetDirectories(directories: Assoc<string>, entries: seq<(Key, string)>,
                          normalizeKey: string -> string, normalizePath: string -> string,
                          basename: string -> string): Assoc<string>
    decreases |entries|
  {
    if entries == [] then directories
    else
      var init := SetDirectories(directories, entries[..|entries| - 1], normalizeKey, normalizePath, basename);
      var e := entries[|entries| - 1];
      AddDirectory(init, e.1, NamespaceOf(e.0), normalizeKey, normalizePath, basename)
  }

  /** A single string is registered under the key of its last segment. */
  lemma SetOneDirectory(directories: Assoc<string>, path: string,
                        normalizeKey: string -> string, normalizePath: string -> string, basename: string -> string)
    ensures var r := SetDirectories(directories, AsArray(OneDirectory(path)), normalizeKey, normalizePath, basename);
      Lookup(r, normalizeKey(basename(path))) == Some(normalizePath(path))
  {
    var entries := AsArray(OneDirectory(path));
    assert entries[..0] == [];
  }

  /** Two namespaces that normalize to the same key (`App` and `app`, say):
      the later directory wins, in the place of the first. */
  lemma SameKeyOverwrites(directories: Assoc<string>, a: string, b: string, ns1: string, ns2: string,
                          normalizeKey: string -> string, normalizePath: string -> string, basename: string -> string)
    requires ns1 != ns2 && normalizeKey(ns1) == normalizeKey(ns2)
    ensures var r := SetDirectories(directories, [(StrKey(ns1), a), (StrKey(ns2), b)], normalizeKey, normalizePath, basename);
      && Lookup(r, normalizeKey(ns1)) == Some(normalizePath(b))
      && KeysOf(r) == KeysOf(AddDirectory(directories, a, Some(ns1), normalizeKey, normalizePath, basename))
  {
    SetTwo(directories, (StrKey(ns1), a), (StrKey(ns2), b), normalizeKey, normalizePath, basename);
  }

  /** setTemplateDirectories() with two entries is two addTemplateDirectory() calls. */
  lemma SetTwo(directories: Assoc<string>, e: (Key, string), f: (Key, string),
               normalizeKey: string -> string, normalizePath: string -> string, basename: string -> string)
    ensures SetDirectories(directories, [e, f], normalizeKey, normalizePath, basename) ==
      AddDirectory(AddDirectory(directories, e.1, NamespaceOf(e.0), normalizeKey, normalizePath, basename),
                   f.1, NamespaceOf(f.0), normalizeKey, normalizePath, basename)
  {
    SetOne(directories, e, normalizeKey, normalizePath, basename);
    SetPair(directories, e, f, normalizeKey, normalizePath, basename);
    AddEq(SetDirectories(directories, [e], normalizeKey, normalizePath, basename),
          AddDirectory(directories, e.1, NamespaceOf(e.0), normalizeKey, normalizePath, basename),
          f.1, NamespaceOf(f.0), normalizeKey, normalizePath, basename);
  }

  lemma SetOne(directories: Assoc<string>, e: (Key, string),
               normalizeKey: string -> string, normalizePath: string -> string, basename: string -> string)
    ensures SetDirectories(directories, [e], normalizeKey, normalizePath, basename) ==
      AddDirectory(directories, e.1, NamespaceOf(e.0), normalizeKey, normalizePath, basename)
  {
    assert [e][..0] == [];
    SetStep(directories, [e], normalizeKey, normalizePath, basename);
  }

  lemma SetPair(directories: Assoc<string>, e: (Key, string), f: (Key, string),
                normalizeKey: string -> string, normalizePath: string -> string, basename: string -> string)
    ensures SetDirectories(directories, [e, f], normalizeKey, normalizePath, basename) ==
      AddDirectory(SetDirectories(directories, [e], normalizeKey, normalizePath, basename),
                   f.1, NamespaceOf(f.0), normalizeKey, normalizePath, basename)
  {
    assert [e, f][..1] == [e];
    SetStep(directories, [e, f], normalizeKey, normalizePath, basename);
  }

  /** Adding one more entry at the end is one more addTemplateDirectory(). */
  lemma SetAppend(directories: Assoc<string>, entries: seq<(Key, string)>, e: (Key, string),
                  normalizeKey: string -> string, normalizePath: string -> string, basename: string -> string)
    ensures SetDirectories(directories, entries + [e], normalizeKey, normalizePath, basename) ==
      AddDirectory(SetDirectories(directories, entries, normalizeKey, normalizePath, basename),
                   e.1, NamespaceOf(e.0), normalizeKey, normalizePath, basename)
  {
    var es := entries + [e];
    assert es[..|es| - 1] == entries;
    SetStep(directories, es, normalizeKey, normalizePath, basename);
  }

  /** The loop of setTemplateDirectories(): entry i is added after the first i. */
  lemma SetNext(directories: Assoc<string>, entries: seq<(Key, string)>, i: nat,
                normalizeKey: string -> string, normalizePath: string -> string, basename: string -> string)
    requires i < |entries|
    ensures AddDirectory(SetDirectories(directories, entries[..i], normalizeKey, normalizePath, basename),
                         entries[i].1, NamespaceOf(entries[i].0), normalizeKey, normalizePath, basename)
      == SetDirectories(directories, entries[..i + 1], normalizeKey, normalizePath, basename)
  {
    assert entries[..i] + [entries[i]] == entries[..i + 1];
    SetAppend(directories, entries[..i], entries[i], normalizeKey, normalizePath, basename);
    SetEntriesEq(directories, entries[..i] + [entries[i]], entries[..i + 1], normalizeKey, normalizePath, basename);
  }

  lemma SetAll(directories: Assoc<string>, entries: seq<(Key, string)>,
               normalizeKey: string -> string, normalizePath: string -> string, basename: string -> string)
    ensures SetDirectories(directories, entries[..|entries|], normalizeKey, normalizePath, basename)
      == SetDirectories(directories, entries, normalizeKey, normalizePath, basename)
  {
    assert entries[..|entries|] == entries;
  }

  lemma SetEntriesEq(directories: Assoc<string>, a: seq<(Key, string)>, b: seq<(Key, string)>,
                     normalizeKey: string -> string, normalizePath: string -> string, basename: string -> string)
    requires a == b
    ensures SetDirectories(directories, a, normalizeKey, normalizePath, basename) ==
      SetDirectories(directories, b, normalizeKey, normalizePath, basename)
  {
  }

  lemma AddEq(a: Assoc<string>, b: Assoc<string>, path: string, namespace: Option<string>,
              normalizeKey: string -> string, normalizePath: string -> string, basename: string -> string)
    requires a == b
    ensures AddDirectory(a, path, namespace, normalizeKey, normalizePath, basename) ==
      AddDirectory(b, path, namespace, normalizeKey, normalizePath, basename)
  {
  }

  /** One step of setTemplateDirectories(): the last entry is added last. */
  lemma SetStep(directories: Assoc<string>, entries: seq<(Key, string)>,
                normalizeKey: string -> string, normalizePath: string -> string, basename: string -> string)
    requires entries != []
    ensures var e := entries[|entries| - 1];
      SetDirectories(directories, entries, normalizeKey, normalizePath, basename) ==
      AddDirectory(SetDirectories(directories, entries[..|entries| - 1], normalizeKey, normalizePath, basename),
                   e.1, NamespaceOf(e.0), normalizeKey, normalizePath, basename)
  {
  }

  class LatteBundle<V> {
    const projectDirectory: string
    const cacheDirectory: string
    var render: Rendering.Render?<V>
    var extensions: seq<Extension>
    var preprocessors: Assoc<Parser>
    var postprocessors: Assoc<Parser>
    var globalVariables: Assoc<V>
    var templateDirectories: Assoc<string>

    /** The constructor registers a new CoreExtension and a new
        FormatterExtension, in that order. */
    constructor(projectDirectory: string, cacheDirectory: string)
      ensures this.projectDirectory == projectDirectory && this.cacheDirectory == cacheDirectory
      ensures |extensions| == 2 && fresh(extensions[0]) && fresh(extensions[1]) && extensions[0] != extensions[1]
      ensures extensions[0].className == "CoreExtension" && extensions[1].className == "FormatterExtension"
      ensures render == null && preprocessors == [] && postprocessors == []
      ensures globalVariables == [] && templateDirectories == []
    {
      this.projectDirectory := projectDirectory;
      this.cacheDirectory := cacheDirectory;
      render := null;
      preprocessors := [];
      postprocessors := [];
      globalVariables := [];
      templateDirectories := [];
      var core := new Extension("CoreExtension");
      var formatter := new Extension("FormatterExtension");
      extensions := [];
      new;
      assert [core, formatter][..1] == [core] && [core][..0] == [];
      assert AddExtensions([], [core]) == [core];
      assert AddExtensions([], [core, formatter]) == [core, formatter];
      AddExtension([core, formatter]);
    }

    method AddExtension(added: seq<Extension>)
      modifies this`extensions
      ensures extensions == AddExtensions(old(extensions), added)
    {
      for i := 0 to |added|
        invariant extensions == AddExtensions(old(extensions), added[..i])
      {
        assert added[..i + 1][..i] == added[..i];
        if added[i] !in extensions {
          extensions := extensions + [added[i]];
        }
      }
      assert added[..|added|] == added;
    }

    method AddGlobalVariable(key: string, value: V)
      modifies this`globalVariables
      ensures globalVariables == Put(old(globalVariables), key, value)
    {
      globalVariables := Put(globalVariables, key, value);
    }

    method AddPreprocessor(parsers: seq<Parser>)
      modifies this`preprocessors
      ensures preprocessors == AddParsers(old(preprocessors), parsers)
    {
      for i := 0 to |parsers|
        invariant preprocessors == AddParsers(old(preprocessors), parsers[..i])
      {
        assert parsers[..i + 1][..i] == parsers[..i];
        preprocessors := Put(preprocessors, parsers[i].className, parsers[i]);
      }
      assert parsers[..|parsers|] == parsers;
    }

    /** addPostprocessor() as written: it stores into the preprocessor array,
        and the postprocessor array never changes. */
    method AddPostprocessor(parsers: seq<Parser>)
      modifies this`preprocessors
      ensures preprocessors == AddParsers(old(preprocessors), parsers)
      ensures postprocessors == old(postprocessors)
    {
      for i := 0 to |parsers|
        invariant preprocessors == AddParsers(old(preprocessors), parsers[..i])
      {
        assert parsers[..i + 1][..i] == parsers[..i];
        preprocessors := Put(preprocessors, parsers[i].className, parsers[i]);
      }
      assert parsers[..|parsers|] == parsers;
    }

    method AddTemplateDirectory(path: string, namespace: Option<string>, normalizeKey: string -> string,
                                normalizePath: string -> string, basename: string -> string)
      modifies this`templateDirectories
      ensures templateDirectories == AddDirectory(old(templateDirectories), path, namespace, normalizeKey, normalizePath, basename)
    {
      var key := normalizeKey(if namespace.Some? then namespace.value else basename(path));
      templateDirectories := Put(templateDirectories, key, normalizePath(path));
    }

    method SetTemplateDirectories(arg: DirectoriesArg, normalizeKey: string -> string,
                                  normalizePath: string -> string, basename: string -> string)
      modifies this`templateDirectories
      ensures templateDirectories == SetDirectories(old(templateDirectories), AsArray(arg), normalizeKey, normalizePath, basename)
    {
      var entries := AsArray(arg);
      for i := 0 to |entries|
        invariant templateDirectories == SetDirectories(old(templateDirectories), entries[..i], normalizeKey, normalizePath, basename)
      {
        SetNext(old(templateDirectories), entries, i, normalizeKey, normalizePath, basename);
        AddTemplateDirectory(entries[i].1, NamespaceOf(entries[i].0), normalizeKey, normalizePath, basename);
      }
      SetAll(old(templateDirectories), entries, normalizeKey, normalizePath, basename);
    }

    /** renderEngine(): the Render is built once, from the registry as it is
        then, and without the postprocessors; later calls return the same
        Render. `loader` is the loader of the started engine. */
    method RenderEngine(loader: TemplateLoader.Loader?) returns (r: Rendering.Render<V>)
      modifies this`render
      ensures old(render) != null ==> r == old(render) && render == old(render)
      ensures old(render) == null ==>
        && fresh(r) && render == r && r.loader == loader && r.projectDirectory == projectDirectory
        && r.templateDirectories == Values(templateDirectories) && r.globalVariables == globalVariables
        && r.postprocessors == []
    {
      if render != null {
        return render;
      }
      r := new Rendering.Render(loader, projectDirectory, Values(templateDirectories), globalVariables, []);
      render := r;
    }
  }

  /** The Render a bundle builds has no postprocessors, so rendering through
      the bundle only minifies the engine's output, whatever the flag. */
  lemma BundleSkipsPostprocessing(content: string, postProcessing: bool, minify: string -> string)
    ensures Rendering.Finished(content, [], postProcessing, minify) == minify(content)
  {
  }
}
