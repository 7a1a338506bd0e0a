/** Northrook\Latte\Render: resolves a template name against the project and
    template directories, merges the global variables into the parameters,
    and runs the engine's output through the postprocessors and the HTML
    minifier. The Latte engine, the file system and the minifier are
    parameters. */
module Rendering {
  import opened Php
  import TemplateLoader
  import opened TemplateChain

  // ------------------------------------------------ load()

  /** The foreach over the template directories: the first that answers. */
  function SearchDirectories(t: string, directories: seq<string>, fs: set<string>): Option<string>
    decreases |directories|
  {
    if directories == [] then None
    else if Probe(t, directories[0], fs).Some? then Probe(t, directories[0], fs)
    else SearchDirectories(t, directories[1..], fs)
  }

  /** The directory at index i answers and none before it does: the search
      returns its answer. */
  lemma {:induction false} SearchFirstProbe(t: string, directories: seq<string>, fs: set<string>, i: nat)
    requires i < |directories| && Probe(t, directories[i], fs).Some?
    requires forall j :: 0 <= j < i ==> Probe(t, directories[j], fs).None?
    ensures SearchDirectories(t, directories, fs) == Probe(t, directories[i], fs)
    decreases i
  {
    if i > 0 {
      SearchFirstProbe(t, directories[1..], fs, i - 1);
    }
  }

  /** The search finds nothing exactly when no directory answers. */
  lemma {:induction false} SearchNone(t: string, directories: seq<string>, fs: set<string>)
    ensures SearchDirectories(t, directories, fs).None? <==>
      forall j :: 0 <= j < |directories| ==> Probe(t, directories[j], fs).None?
    decreases |directories|
  {
    if directories != [] {
      SearchNone(t, directories[1..], fs);
      assert forall j :: 1 <= j < |directories| ==> directories[1..][j - 1] == directories[j];
    }
  }

  /** load(template): a name without the `.latte` suffix is a template
      string and is returned untouched; otherwise the normalised path, when it
      lies in the project and exists; otherwise what the first template
      directory answers; otherwise the normalised path. */
  function LoadPath(template: string, projectDirectory: string, directories: seq<string>,
                    fs: set<string>, normalize: string -> string): (r: string)
    ensures !EndsWith(template, ".latte") ==> r == template
    ensures EndsWith(template, ".latte") && StartsWith(normalize(template), projectDirectory) && normalize(template) in fs ==>
      r == normalize(template)
  {
    if !EndsWith(template, ".latte") then template
    else
      var t := normalize(template);
      if StartsWith(t, projectDirectory) && t in fs then t
      else match SearchDirectories(t, directories, fs)
        case Some(p) => p
        case None => t
  }

  /** A `.latte` name resolves to the normalised name itself or to a file
      that exists under one of the template directories. */
  lemma LoadPathFound(template: string, projectDirectory: string, directories: seq<string>,
                      fs: set<string>, normalize: string -> string)
    requires EndsWith(template, ".latte")
    ensures var r := LoadPath(template, projectDirectory, directories, fs, normalize);
      r == normalize(template) ||
      (r in fs && exists j :: 0 <= j < |directories| && r == JoinPath(directories[j], normalize(template)))
  {
    var t := normalize(template);
    if !(StartsWith(t, projectDirectory) && t in fs) {
      var s := SearchDirectories(t, directories, fs);
      if s.Some? && s.value != t {
        SearchNone(t, directories, fs);
        var i :| 0 <= i < |directories| && Probe(t, directories[i], fs).Some?;
        FirstProbe(t, directories, fs, i);
      }
    }
  }

  /** Some directory answers: the search returns the answer of the first. */
  lemma FirstProbe(t: string, directories: seq<string>, fs: set<string>, i: nat)
    requires i < |directories| && Probe(t, directories[i], fs).Some?
    ensures exists k :: 0 <= k < |directories| && SearchDirectories(t, directories, fs) == Probe(t, directories[k], fs)
    decreases i
  {
    if forall j :: 0 <= j < i ==> Probe(t, directories[j], fs).None? {
      SearchFirstProbe(t, directories, fs, i);
    } else {
      var j :| 0 <= j < i && Probe(t, directories[j], fs).Some?;
      FirstProbe(t, directories, fs, j);
    }
  }

  /** A name that the project and no directory answers comes back
      normalised. */
  lemma LoadPathFallback(template: string, projectDirectory: string, directories: seq<string>,
                         fs: set<string>, normalize: string -> string)
    requires EndsWith(template, ".latte")
    requires !(StartsWith(normalize(template), projectDirectory) && normalize(template) in fs)
    requires forall j :: 0 <= j < |directories| ==> Probe(normalize(template), directories[j], fs).None?
    ensures LoadPath(template, projectDirectory, directories, fs, normalize) == normalize(template)
  {
    SearchNone(normalize(template), directories, fs);
  }

  // ------------------------------------------------ global()

  /** The template parameters: an object (a Latte template-type instance) or
      an array. */
  datatype Params<V> = ObjectParams(obj: V) | ArrayParams(entries: Assoc<V>)

  /** global(parameters): an object is passed on as it is; an array is
      `$globalVariables + $parameters`. */
  function Global<V>(globals: Assoc<V>, parameters: Params<V>): (r: Params<V>)
    ensures parameters.ObjectParams? ==> r == parameters
    ensures parameters.ArrayParams? ==> r.ArrayParams?
  {
    match parameters
      case ObjectParams(_) => parameters
      case ArrayParams(entries) => ArrayParams(Union(globals, entries))
  }

  /** In the merged array a global variable takes precedence over a template
      parameter of the same name; every other parameter is kept. */
  lemma GlobalsWin<V>(globals: Assoc<V>, entries: Assoc<V>, k: string)
    ensures Lookup(Global(globals, ArrayParams(entries)).entries, k) ==
      if k in KeysOf(globals) then Lookup(globals, k) else Lookup(entries, k)
  {
    UnionLookup(globals, entries, k);
  }

  // ------------------------------------------------ renderToString()

  /** What renderToString() returns for the engine's output: the
      postprocessors in order when postprocessing is on, then the minifier. */
  function Finished(content: string, postprocessors: seq<string -> string>, postProcessing: bool,
                    minify: string -> string): string
  {
    minify(if postProcessing && postprocessors != [] then ApplyAll(postprocessors, content) else content)
  }

  /** The emptiness test of the postprocessor list changes nothing, and
      without postprocessing only the minifier runs. */
  lemma FinishedStages(content: string, postprocessors: seq<string -> string>, minify: string -> string)
    ensures Finished(content, postprocessors, true, minify) == minify(ApplyAll(postprocessors, content))
    ensures Finished(content, postprocessors, false, minify) == minify(content)
  {
  }

  /** Postprocessors added in two rounds run as one list. */
  lemma FinishedAppend(content: string, first: seq<string -> string>, second: seq<string -> string>,
                       minify: string -> string)
    ensures Finished(content, first + second, true, minify) == minify(ApplyAll(second, ApplyAll(first, content)))
  {
    ApplyAllAppend(first, second, content);
  }

  /** renderToString() as written: it starts the optional stopwatch first,
      so a Render built without one fails on null before anything runs. */
  function RenderAsWritten(hasStopwatch: bool, html: string): (r: Result<string>)
    ensures hasStopwatch ==> r == Ok(html)
    ensures !hasStopwatch ==> r == Err(NullCall)
  {
    if hasStopwatch then Ok(html) else Err(NullCall)
  }

  /** The constructor's default stopwatch is null: such a Render cannot
      render anything. */
  lemma DefaultRenderFails(html: string)
    ensures forall h :: RenderAsWritten(false, h).Err?
    ensures RenderAsWritten(true, html) == Ok(html)
  {
  }

  class Render<V> {
    const projectDirectory: string
    const templateDirectories: seq<string>
    const globalVariables: Assoc<V>
    const postprocessors: seq<string -> string>
    /** The engine's loader when it is the bundle's Loader, else null. */
    const loader: TemplateLoader.Loader?

    constructor(loader: TemplateLoader.Loader?, projectDirectory: string, templateDirectories: seq<string>,
                globalVariables: Assoc<V>, postprocessors: seq<string -> string>)
      ensures this.loader == loader && this.projectDirectory == projectDirectory
      ensures this.templateDirectories == templateDirectories && this.globalVariables == globalVariables
      ensures this.postprocessors == postprocessors
    {
      this.loader := loader;
      this.projectDirectory := projectDirectory;
      this.templateDirectories := templateDirectories;
      this.globalVariables := globalVariables;
      this.postprocessors := postprocessors;
    }

    method Load(template: string, fs: set<string>, normalize: string -> string) returns (r: string)
      ensures r == LoadPath(template, projectDirectory, templateDirectories, fs, normalize)
    {
      if !EndsWith(template, ".latte") {
        return template;
      }
      var t := normalize(template);
      if StartsWith(t, projectDirectory) && t in fs {
        return t;
      }
      var ds := templateDirectories;
      for i := 0 to |ds|
        invariant SearchDirectories(t, ds, fs) == SearchDirectories(t, ds[i..], fs)
      {
        assert ds[i..][1..] == ds[i + 1..];
        if StartsWith(t, ds[i]) && ds[i] in fs {
          return t;
        }
        var path := JoinPath(ds[i], t);
        if path in fs {
          return path;
        }
      }
      r := t;
    }

    /** renderToString(): sets the loader's preprocessing flag, renders the
        resolved template with the merged parameters, then finishes the
        output. The engine's rendering is the parameter `engine`; in the
        engine the loader compiles the template and rewrites its content,
        so nothing is promised about the loader's content afterwards. */
    method RenderToString(template: string, parameters: Params<V>, block: Option<string>,
                          preProcessing: bool, postProcessing: bool, fs: set<string>,
                          normalize: string -> string, engine: (string, Params<V>, Option<string>) -> string,
                          minify: string -> string)
      returns (html: string)
      modifies loader
      ensures loader != null ==> loader.parsePreprocessors == preProcessing
      ensures html == Finished(engine(LoadPath(template, projectDirectory, templateDirectories, fs, normalize),
                                      Global(globalVariables, parameters), block),
                               postprocessors, postProcessing, minify)
    {
      if loader != null {
        loader.parsePreprocessors := preProcessing;
      }
      var name := Load(template, fs, normalize);
      var content := engine(name, Global(globalVariables, parameters), block);
      if postProcessing && postprocessors != [] {
        ghost var start := content;
        for i := 0 to |postprocessors|
          invariant content == ApplyAll(postprocessors[..i], start)
        {
          assert postprocessors[..i + 1][..i] == postprocessors[..i];
          content := postprocessors[i](content);
        }
        assert postprocessors[..|postprocessors|] == postprocessors;
      }
      html := minify(content);
    }
  }
}
