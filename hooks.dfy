/** Northrook\Latte\Hook: the runtime hook loader, which remembers how often
    each named hook has been rendered, and the Latte extension that exposes it
    to templates as the functions render() and getRenderString(). */
module Hooks {
  import opened Php

  /** What addHook() accepts: a plain string, a Stringable object (its
      __toString() result) or a callable (the string its call produces). */
  datatype HookValue = Plain(s: string) | Stringable(asString: string) | Callable(output: string)

  /** The `(string)` rendering of a hook: a callable is called, anything
      else is cast. */
  function Cast(v: HookValue): string {
    match v
      case Plain(s) => s
      case Stringable(t) => t
      case Callable(o) => o
  }

  /** The two arrays of the loader: the hooks in insertion order and the
      render counters. */
  datatype HookState = HookState(hooks: Assoc<HookValue>, rendered: map<string, nat>)

  /** A call to get(): the state after it and what it returns (a TypeError
      is an error result). */
  datatype Outcome = Outcome(state: HookState, result: Result<Option<string>>)

  /** The guard of get(): a unique hook rendered before, or a hook never
      added, gives null. */
  predicate Skipped(s: HookState, hook: string, unique: bool) {
    (unique && hook in s.rendered) || hook !in KeysOf(s.hooks)
  }

  function Count(s: HookState, hook: string): nat {
    if hook in s.rendered then s.rendered[hook] else 0
  }

  /** get(hook, unique, returnObject). With returnObject the stored value is
      returned as it is; the method is declared `?string` under strict types,
      so a Stringable or callable value is a TypeError (after the counter has
      gone up). */
  function GetHook(s: HookState, hook: string, unique: bool, returnObject: bool): (r: Outcome)
    ensures r.result == Ok(None) <==> Skipped(s, hook, unique)
    ensures Skipped(s, hook, unique) ==> r.state == s
    ensures !Skipped(s, hook, unique) ==>
      r.state == HookState(s.hooks, s.rendered[hook := Count(s, hook) + 1])
    ensures r.result.Err? <==> !Skipped(s, hook, unique) && returnObject && !Lookup(s.hooks, hook).value.Plain?
    ensures r.result.Ok? && r.result.value.Some? ==> r.result.value.value == Cast(Lookup(s.hooks, hook).value)
  {
    if Skipped(s, hook, unique) then Outcome(s, Ok(None))
    else
      var next := HookState(s.hooks, s.rendered[hook := Count(s, hook) + 1]);
      var v := Lookup(s.hooks, hook).value;
      if returnObject then
        if v.Plain? then Outcome(next, Ok(Some(v.s))) else Outcome(next, Err(Type))
      else Outcome(next, Ok(Some(Cast(v))))
  }

  /** addHook(): the value is stored under its name, replacing an earlier
      one; the counters stay. */
  function AddHook(s: HookState, hook: string, v: HookValue): (r: HookState)
    ensures r.rendered == s.rendered
    ensures r.hooks == Put(s.hooks, hook, v)
  {
    HookState(Put(s.hooks, hook, v), s.rendered)
  }

  /** A unique hook renders once: a second unique get() returns null and
      changes nothing, whatever either call asked to be returned. */
  lemma UniqueOnce(s: HookState, hook: string, returnObject: bool, again: bool)
    requires hook in KeysOf(s.hooks)
    ensures var first := GetHook(s, hook, true, returnObject);
      var second := GetHook(first.state, hook, true, again);
      second.result == Ok(None) && second.state == first.state
  {
  }

  /** A non-unique get() of an added hook always renders it, and counts it. */
  lemma {:induction false} RepeatedGets(s: HookState, hook: string, n: nat)
    requires hook in KeysOf(s.hooks)
    ensures var t := GetMany(s, hook, n);
      t.hooks == s.hooks && Count(t, hook) == Count(s, hook) + n
  {
    if n > 0 {
      RepeatedGets(s, hook, n - 1);
    }
  }

  /** The state after n non-unique get() calls of one hook. */
  function GetMany(s: HookState, hook: string, n: nat): (t: HookState)
    ensures t.hooks == s.hooks
  {
    if n == 0 then s else GetHook(GetMany(s, hook, n - 1), hook, false, false).state
  }

  /** Replacing a hook does not reset its counter: once rendered uniquely, a
      hook stays unavailable to unique calls even after addHook(). */
  lemma ReplaceKeepsRendered(s: HookState, hook: string, v: HookValue, w: HookValue)
    ensures var first := GetHook(AddHook(s, hook, v), hook, true, false);
      && first.result == (if hook in s.rendered then Ok(None) else Ok(Some(Cast(v))))
      && GetHook(AddHook(first.state, hook, w), hook, true, false).result == Ok(None)
  {
    PutLookup(s.hooks, hook, v, hook);
    var first := GetHook(AddHook(s, hook, v), hook, true, false);
    PutLookup(first.state.hooks, hook, w, hook);
  }

  /** After addHook(), a get() renders the new value, counted once. */
  lemma AddThenGet(s: HookState, hook: string, v: HookValue)
    requires hook !in s.rendered
    ensures var r := GetHook(AddHook(s, hook, v), hook, true, false);
      r.result == Ok(Some(Cast(v))) && r.state.rendered == s.rendered[hook := 1]
  {
    PutLookup(s.hooks, hook, v, hook);
  }

  class RuntimeHookLoader {
    var hooks: Assoc<HookValue>
    var rendered: map<string, nat>

    function State(): HookState
      reads this
    {
      HookState(hooks, rendered)
    }

    constructor()
      ensures hooks == [] && rendered == map[]
    {
      hooks := [];
      rendered := map[];
    }

    method Get(hook: string, unique: bool, returnObject: bool) returns (r: Result<Option<string>>)
      modifies this
      ensures Outcome(State(), r) == GetHook(old(State()), hook, unique, returnObject)
    {
      if (unique && hook in rendered) || hook !in KeysOf(hooks) {
        return Ok(None);
      }
      rendered := rendered[hook := (if hook in rendered then rendered[hook] else 0) + 1];
      var v := Lookup(hooks, hook).value;
      if returnObject {
        if v.Plain? {
          return Ok(Some(v.s));
        }
        return Err(Type);
      }
      r := Ok(Some(Cast(v)));
    }

    method AddHookValue(hook: string, v: HookValue)
      modifies this
      ensures State() == AddHook(old(State()), hook, v)
    {
      hooks := Put(hooks, hook, v);
    }

    method GetHooks() returns (r: Assoc<HookValue>)
      ensures r == hooks
    {
      r := hooks;
    }
  }

  // ------------------------------------------------ RenderHookExtension

  /** getRuntimeRenderHook(hook, fallback, unique): the hook's string, or the
      fallback when the loader gives null (an empty string is kept). */
  function RenderHook(s: HookState, hook: string, fallback: Option<string>, unique: bool): (r: Outcome)
    ensures r.state == GetHook(s, hook, unique, false).state
    ensures r.result.Ok?
    ensures Skipped(s, hook, unique) ==> r.result.value == fallback
    ensures !Skipped(s, hook, unique) ==> r.result.value == Some(Cast(Lookup(s.hooks, hook).value))
  {
    var o := GetHook(s, hook, unique, false);
    Outcome(o.state, if o.result == Ok(None) then Ok(fallback) else o.result)
  }

  /** What echoRuntimeRenderHook() prints: the rendered string; echo of null
      prints nothing. */
  function EchoText(r: Option<string>): (out: string)
    ensures r.Some? ==> out == r.value
    ensures r.None? ==> out == ""
  {
    if r.Some? then r.value else ""
  }

  /** The two template functions getFunctions() registers. */
  datatype HookFunction = EchoRuntimeRenderHook | GetRuntimeRenderHook

  function GetFunctions(): (fs: seq<(string, HookFunction)>)
    ensures Lookup(fs, "render") == Some(EchoRuntimeRenderHook)
    ensures Lookup(fs, "getRenderString") == Some(GetRuntimeRenderHook)
    ensures |fs| == 2
  {
    [("render", EchoRuntimeRenderHook), ("getRenderString", GetRuntimeRenderHook)]
  }

  /** A template that calls render() twice for one hook prints it once, then
      the fallback. */
  lemma RenderTwice(s: HookState, hook: string, fallback: Option<string>)
    requires hook in KeysOf(s.hooks) && hook !in s.rendered
    ensures var first := RenderHook(s, hook, fallback, true);
      var second := RenderHook(first.state, hook, fallback, true);
      && EchoText(first.result.value) == Cast(Lookup(s.hooks, hook).value)
      && EchoText(second.result.value) == EchoText(fallback)
  {
  }

  class RenderHookExtension {
    const hookLoader: RuntimeHookLoader

    constructor(hookLoader: RuntimeHookLoader)
      ensures this.hookLoader == hookLoader
    {
      this.hookLoader := hookLoader;
    }

    method GetRuntimeRenderHookString(hook: string, fallback: Option<string>, unique: bool) returns (r: Option<string>)
      modifies hookLoader
      ensures Outcome(hookLoader.State(), Ok(r)) == RenderHook(old(hookLoader.State()), hook, fallback, unique)
    {
      var got := hookLoader.Get(hook, unique, false);
      r := if got == Ok(None) then fallback else got.value;
    }

    method EchoRuntimeRenderHook(hook: string, fallback: Option<string>, unique: bool) returns (out: string)
      modifies hookLoader
      ensures var o := RenderHook(old(hookLoader.State()), hook, fallback, unique);
        hookLoader.State() == o.state && out == EchoText(o.result.value)
    {
      var r := GetRuntimeRenderHookString(hook, fallback, unique);
      out := EchoText(r);
    }
  }
}
