/** Northrook\Latte\Environment and its older twin Northrook\Latte: a
    singleton registry of extensions, postprocessors, global variables and
    template directories that starts one Latte engine on first use. The two
    classes share every rule modelled here; the engine's own rendering, the
    cache directory and the logger are outside the model. */
module Environments {
  import opened Php
  import opened Rendering
  import TemplateChain

  /** A Latte\Extension instance; `in_array(..., true)` compares instances by
      identity, as Dafny compares object references. */
  class Extension {
    const className: string

    constructor(className: string)
      ensures this.className == className
    {
      this.className := className;
    }
  }

  predicate Distinct(xs: seq<Extension>) {
    forall i, j :: 0 <= i < j < |xs| ==> xs[i] != xs[j]
  }

  // ------------------------------------------------ addExtension()

  /** The extension list after addExtension(...added): each instance not
      already present is appended, in argument order. */
  function AddExtensions(existing: seq<Extension>, added: seq<Extension>): seq<Extension>
    decreases |added|
  {
    if added == [] then existing
    else
      var r := AddExtensions(existing, added[..|added| - 1]);
      if added[|added| - 1] in r then r else r + [added[|added| - 1]]
  }

  /** Registration only appends: the earlier list is a prefix, in its order,
      and the result holds exactly the old and the added instances. */
  lemma {:induction false} AddExtensionsKeeps(existing: seq<Extension>, added: seq<Extension>)
    ensures var r := AddExtensions(existing, added);
      && |r| >= |existing| && r[..|existing|] == existing
      && forall x :: x in r <==> x in existing || x in added
    decreases |added|
  {
    if added != [] {
      var init := added[..|added| - 1];
      AddExtensionsKeeps(existing, init);
      assert forall x :: x in added <==> x in init || x == added[|added| - 1];
    }
  }

  /** No instance is registered twice. */
  lemma {:induction false} AddExtensionsDistinct(existing: seq<Extension>, added: seq<Extension>)
    requires Distinct(existing)
    ensures Distinct(AddExtensions(existing, added))
    decreases |added|
  {
    if added != [] {
      AddExtensionsDistinct(existing, added[..|added| - 1]);
    }
  }

  /** Adding instances that are all registered already changes nothing. */
  lemma {:induction false} AddExtensionsPresent(existing: seq<Extension>, added: seq<Extension>)
    requires forall x :: x in added ==> x in existing
    ensures AddExtensions(existing, added) == existing
    decreases |added|
  {
    if added != [] {
      AddExtensionsPresent(existing, added[..|added| - 1]);
    }
  }

  /** Calling addExtension() twice with the same instances is the same as
      calling it once (the second call only warns). */
  lemma AddExtensionsIdempotent(existing: seq<Extension>, added: seq<Extension>)
    ensures AddExtensions(AddExtensions(existing, added), added) == AddExtensions(existing, added)
  {
    AddExtensionsKeeps(existing, added);
    AddExtensionsPresent(AddExtensions(existing, added), added);
  }

  // ------------------------------------------------ loader()

  /** The Latte loaders the registry can end up with. */
  datatype LatteLoader = FileLoader | UserLoader(id: nat)

  /** What calling a loader Closure does: return a Latte loader, or fail
      (throw, or return something that is not a loader). */
  datatype ClosureCall = Returns(loader: LatteLoader) | Fails

  /** The `$loader` property: unset, a loader, or a Closure producing one. */
  datatype LoaderSlot = Unset | Provided(loader: LatteLoader) | Closure(call: ClosureCall)

  /** loader(): an unset property becomes a FileLoader; a Closure is called
      and replaced by its loader; a failing Closure is a TypeError and stays
      in place. Returns the new property and the result. */
  function LoaderStep(slot: LoaderSlot): (r: (LoaderSlot, Result<LatteLoader>))
    ensures slot == Unset ==> r == (Provided(FileLoader), Ok(FileLoader))
    ensures slot.Provided? ==> r == (slot, Ok(slot.loader))
    ensures slot == Closure(Fails) ==> r == (slot, Err(Type))
    ensures slot.Closure? && slot.call.Returns? ==> r == (Provided(slot.call.loader), Ok(slot.call.loader))
  {
    match slot
      case Unset => (Provided(FileLoader), Ok(FileLoader))
      case Provided(l) => (slot, Ok(l))
      case Closure(Fails) => (slot, Err(Type))
      case Closure(Returns(l)) => (Provided(l), Ok(l))
  }

  /** Once loader() succeeds the property holds a loader: the Closure ran at
      most once, and later calls return the same loader and change nothing. */
  lemma LoaderOnce(slot: LoaderSlot)
    requires LoaderStep(slot).1.Ok?
    ensures var (next, r) := LoaderStep(slot);
      next.Provided? && LoaderStep(next) == (next, r)
  {
  }

  /** loader() fails exactly for a failing Closure, every time. */
  lemma LoaderFails(slot: LoaderSlot)
    ensures LoaderStep(slot).1.Err? <==> slot == Closure(Fails)
    ensures LoaderStep(slot).1.Err? ==> LoaderStep(LoaderStep(slot).0) == LoaderStep(slot)
  {
  }

  // ------------------------------------------------ templateToString()

  /** What templateToString() returns for the engine's output: the
      postprocessors folded over it when the flag is set. */
  function TemplateOutput(content: string, postprocessors: seq<string -> string>, postProcessing: bool): (r: string)
    ensures !postProcessing ==> r == content
    ensures postProcessing && postprocessors == [] ==> r == content
  {
    if postProcessing then ApplyAll(postprocessors, content) else content
  }

  /** Postprocessors registered in two calls run in call order. */
  lemma TemplateOutputAppend(content: string, first: seq<string -> string>, second: seq<string -> string>)
    ensures TemplateOutput(content, first + second, true) == ApplyAll(second, TemplateOutput(content, first, true))
  {
    ApplyAllAppend(first, second, content);
  }

  /** The Latte engine as far as the registry sees it: the extensions handed
      to it at start-up and the loader set on it. */
  class Engine {
    var extensions: seq<Extension>
    var loader: Option<LatteLoader>

    constructor(extensions: seq<Extension>)
      ensures this.extensions == extensions && loader == None
    {
      this.extensions := extensions;
      loader := None;
    }

    method SetLoader(l: LatteLoader)
      modifies this`loader
      ensures loader == Some(l)
    {
      loader := Some(l);
    }
  }

  /** The static `$environment` property: the one instance, once built. */
  class EnvironmentSlot<V> {
    var environment: Environment?<V>

    constructor()
      ensures environment == null
    {
      environment := null;
    }
  }

  /** `new Environment(...)`: setStaticAccessor() refuses a second instance
      with a LogicException; the first becomes the static instance. */
  method NewEnvironment<V>(slot: EnvironmentSlot<V>, projectDirectory: string, cacheDirectory: string)
    returns (r: Result<Environment<V>>)
    modifies slot
    ensures old(slot.environment) != null ==> r == Err(Logic) && slot.environment == old(slot.environment)
    ensures old(slot.environment) == null ==>
      && r.Ok? && fresh(r.value) && fresh(r.value.templateLoader) && slot.environment == r.value
      && r.value.Valid() && r.value.Fresh() && r.value.projectDirectory == projectDirectory
  {
    if slot.environment != null {
      return Err(Logic);
    }
    var e := new Environment(projectDirectory, cacheDirectory);
    slot.environment := e;
    r := Ok(e);
  }

  class Environment<V> {
    const projectDirectory: string
    const cacheDirectory: string
    const templateLoader: TemplateChain.TemplateChainLoader
    var loader: LoaderSlot
    var engine: Engine?
    var globalVariables: Assoc<V>
    var extensions: seq<Extension>
    var postprocessors: seq<string -> string>

    ghost predicate Valid()
      reads this, templateLoader
    {
      templateLoader.Valid()
    }

    /** Nothing registered yet and no engine. */
    predicate Fresh()
      reads this, templateLoader
    {
      loader == Unset && engine == null && globalVariables == [] && extensions == [] && postprocessors == []
      && templateLoader.directories == map[] && !templateLoader.locked
    }

    constructor(projectDirectory: string, cacheDirectory: string)
      ensures Valid() && Fresh() && fresh(templateLoader)
      ensures this.projectDirectory == projectDirectory && this.cacheDirectory == cacheDirectory
      ensures templateLoader.projectDirectory == projectDirectory
    {
      this.projectDirectory := projectDirectory;
      this.cacheDirectory := cacheDirectory;
      templateLoader := new TemplateChain.TemplateChainLoader(projectDirectory);
      loader := Unset;
      engine := null;
      globalVariables := [];
      extensions := [];
      postprocessors := [];
    }

    method SetLoader(slot: LoaderSlot)
      modifies this`loader
      ensures loader == slot
    {
      loader := slot;
    }

    method Loader() returns (r: Result<LatteLoader>)
      modifies this`loader
      ensures (loader, r) == LoaderStep(old(loader))
    {
      match loader {
        case Unset =>
          loader := Provided(FileLoader);
          r := Ok(FileLoader);
        case Provided(l) =>
          r := Ok(l);
        case Closure(call) =>
          if call.Fails? {
            return Err(Type);
          }
          loader := Provided(call.loader);
          r := Ok(call.loader);
      }
    }

    /** engine(): started at most once. startEngine() stores the new engine
        before asking loader(), so a failing loader leaves an engine without
        a loader in place, and later calls return that engine. */
    method Engine() returns (r: Result<Engine>)
      modifies this`engine, this`loader
      ensures old(engine) != null ==> r.Ok? && r.value == old(engine) && engine == old(engine) && loader == old(loader)
      ensures old(engine) == null ==>
        && engine != null && fresh(engine) && engine.extensions == extensions
        && loader == LoaderStep(old(loader)).0
        && (LoaderStep(old(loader)).1.Ok? ==> r.Ok? && r.value == engine && engine.loader == Some(LoaderStep(old(loader)).1.value))
        && (LoaderStep(old(loader)).1.Err? ==> r == Err(Type) && engine.loader == None)
    {
      if engine != null {
        return Ok(engine);
      }
      var e := new Engine(extensions);
      engine := e;
      var l := Loader();
      if l.Err? {
        return Err(l.error);
      }
      e.SetLoader(l.value);
      r := Ok(e);
    }

    method AddGlobalVariable(key: string, value: V)
      modifies this`globalVariables
      ensures globalVariables == Put(old(globalVariables), key, value)
    {
      globalVariables := Put(globalVariables, key, value);
    }

    /** addExtension(...added): returns how many were skipped with a warning.
        An engine already started does not see the new extensions. */
    method AddExtension(added: seq<Extension>) returns (warnings: nat)
      modifies this`extensions
      ensures extensions == AddExtensions(old(extensions), added)
      ensures |extensions| == |old(extensions)| + |added| - warnings
    {
      warnings := 0;
      for i := 0 to |added|
        invariant extensions == AddExtensions(old(extensions), added[..i])
        invariant |extensions| == |old(extensions)| + i - warnings
      {
        assert added[..i + 1][..i] == added[..i];
        if added[i] in extensions {
          warnings := warnings + 1;
        } else {
          extensions := extensions + [added[i]];
        }
      }
      assert added[..|added|] == added;
    }

    method AddPostprocessor(added: seq<string -> string>)
      modifies this`postprocessors
      ensures postprocessors == old(postprocessors) + added
    {
      for i := 0 to |added|
        invariant postprocessors == old(postprocessors) + added[..i]
      {
        assert added[..i + 1] == added[..i] + [added[i]];
        postprocessors := postprocessors + [added[i]];
      }
      assert added[..|added|] == added;
    }

    /** postProcessing(string): the postprocessors in registration order. */
    method PostProcessing(s: string) returns (r: string)
      ensures r == ApplyAll(postprocessors, s)
    {
      r := s;
      for i := 0 to |postprocessors|
        invariant r == ApplyAll(postprocessors[..i], s)
      {
        assert postprocessors[..i + 1][..i] == postprocessors[..i];
        r := postprocessors[i](r);
      }
      assert postprocessors[..|postprocessors|] == postprocessors;
    }

    method AddTemplateDirectory(path: string, priority: TemplateChain.Priority, normalize: string -> string)
      returns (warned: bool)
      requires Valid()
      modifies templateLoader
      ensures Valid() && warned == old(templateLoader.locked)
      ensures !warned ==>
        var key := TemplateChain.PriorityKey(priority);
        templateLoader.directories == TemplateChain.WithDirectory(old(templateLoader.directories), normalize(path), key)
      ensures warned ==> templateLoader.directories == old(templateLoader.directories)
    {
      warned := templateLoader.Add(path, priority, normalize);
    }

    /** templateToString(): starts the engine (which can fail), resolves the
        template through the chain loader, renders it with the merged
        parameters (the engine's rendering is the parameter `render`), and
        post-processes only when asked. */
    method TemplateToString(template: string, parameters: Params<V>, block: Option<string>, postProcessing: bool,
                            fs: set<string>, normalize: string -> string,
                            render: (string, Params<V>, Option<string>) -> string)
      returns (r: Result<string>)
      requires Valid()
      modifies this`engine, this`loader, templateLoader
      ensures Valid()
      ensures r.Err? <==> old(engine) == null && LoaderStep(old(loader)).1.Err?
      ensures r.Err? ==> r.error == Type && templateLoader.directories == old(templateLoader.directories)
      ensures r.Err? ==> templateLoader.locked == old(templateLoader.locked)
      ensures r.Ok? ==> templateLoader.locked && templateLoader.directories == old(templateLoader.directories)
      ensures r.Ok? ==>
        var name := TemplateChain.Resolve(template, templateLoader.projectDirectory, old(templateLoader.directories), fs, normalize);
        r.value == TemplateOutput(render(name, Global(globalVariables, parameters), block), postprocessors, postProcessing)
    {
      var e := Engine();
      if e.Err? {
        return Err(e.error);
      }
      var name := templateLoader.Load(template, fs, normalize);
      var content := render(name, Global(globalVariables, parameters), block);
      if !postProcessing {
        return Ok(content);
      }
      content := PostProcessing(content);
      r := Ok(content);
    }
  }
}
