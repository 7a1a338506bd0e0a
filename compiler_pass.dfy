/** Northrook\Latte\Compiler\CompilerPassExtension: an extension whose single
    compiler pass runs each of its visitor callbacks as a full traversal of
    the template, one after another. */
module CompilerPass {
  import opened Nodes

  /** The template after traversals with each callback in turn. */
  function ApplyPasses(root: Node, callbacks: seq<Visitor>, fuel: nat): Node
    decreases |callbacks|
  {
    if callbacks == [] then root
    else Traverse(ApplyPasses(root, callbacks[..|callbacks| - 1], fuel), callbacks[|callbacks| - 1], fuel)
  }

  /** The default traverseNodes() registers no callbacks. */
  function DefaultTraverseNodes(): (cs: seq<Visitor>)
    ensures |cs| == 0
  {
    []
  }

  /** Without callbacks the pass leaves the template alone. */
  lemma DefaultPassKeepsTemplate(root: Node, fuel: nat)
    ensures ApplyPasses(root, DefaultTraverseNodes(), fuel) == root
  {
  }

  /** Running a list of callbacks is running its parts in order: one complete
      traversal ends before the next one starts. */
  lemma {:induction false} ApplyPassesAppend(root: Node, a: seq<Visitor>, b: seq<Visitor>, fuel: nat)
    ensures ApplyPasses(root, a + b, fuel) == ApplyPasses(ApplyPasses(root, a, fuel), b, fuel)
    decreases |b|
  {
    if b == [] {
      assert a + b == a;
    } else {
      assert (a + b)[..|a + b| - 1] == a + b[..|b| - 1];
      ApplyPassesAppend(root, a, b[..|b| - 1], fuel);
    }
  }

  /** Callbacks that return every node as they found it change nothing. */
  lemma {:induction false} ApplyPassesKeepAll(root: Node, callbacks: seq<Visitor>, fuel: nat)
    requires forall k, x :: 0 <= k < |callbacks| ==> callbacks[k](x) == Replace(x)
    ensures ApplyPasses(root, callbacks, fuel) == root
    decreases |callbacks|
  {
    if callbacks != [] {
      var init := callbacks[..|callbacks| - 1];
      assert forall k :: 0 <= k < |init| ==> init[k] == callbacks[k];
      ApplyPassesKeepAll(root, init, fuel);
      TraverseKeepAll(root, callbacks[|callbacks| - 1], fuel);
    }
  }

  /** Latte's TemplateNode; the passes rewrite its tree in place. */
  class TemplateNode {
    var main: Node

    constructor(main: Node)
      ensures this.main == main
    {
      this.main := main;
    }
  }

  /** The name under which getPasses() registers the traverser. */
  datatype PassCallback = TemplateNodeTraverserOf(className: string)

  class CompilerPassExtension {
    const className: string
    /** What traverseNodes() returns. */
    const callbacks: seq<Visitor>

    constructor(className: string, callbacks: seq<Visitor>)
      ensures this.className == className && this.callbacks == callbacks
    {
      this.className := className;
      this.callbacks := callbacks;
    }

    /** getPasses(): one pass, keyed by the concrete class name. */
    function GetPasses(): (passes: map<string, PassCallback>)
      ensures passes.Keys == {className}
      ensures passes[className].className == className
    {
      map[className := TemplateNodeTraverserOf(className)]
    }

    /** templateNodeTraverser(): a fresh traversal per callback, in order. */
    method TemplateNodeTraverser(node: TemplateNode, fuel: nat)
      modifies node
      ensures node.main == ApplyPasses(old(node.main), callbacks, fuel)
    {
      ghost var start := node.main;
      for i := 0 to |callbacks|
        invariant node.main == ApplyPasses(start, callbacks[..i], fuel)
      {
        assert callbacks[..i + 1][..i] == callbacks[..i];
        node.main := Traverse(node.main, callbacks[i], fuel);
      }
      assert callbacks[..|callbacks|] == callbacks;
    }
  }
}
