/** The part of Latte's compiled template tree that the bundle's compiler
    passes look at, and Latte's NodeTraverser as the passes use it. */
module Nodes {
  import opened Php

  /** A node, by value. ElementNode keeps its attribute list (the children of
      its `attributes` fragment) and its content; AttributeNode its name node,
      optional value node and quote; FragmentNode stands for every other
      container, such as the template's main fragment. */
  datatype Node =
    | Element(name: string, attributes: seq<Node>, content: seq<Node>)
    | Attribute(attrName: Node, value: Option<Node>, quote: string)
    | Text(text: string)
    | Expression(code: string)
    | Fragment(children: seq<Node>)

  /** What a visitor returns to the traverser: the node to continue with, or
      NodeTraverser::DontTraverseChildren. */
  datatype Visit = Replace(node: Node) | DontTraverseChildren

  type Visitor = Node -> Visit

  /** NodeTraverser::traverse(node, visitor), assumed to be a pre-order walk:
      the visitor sees a node first; unless it answers DontTraverseChildren the
      children of the node it returned are walked, an element's attributes
      before its content and an attribute's name before its value. Intermediate
      fragments are not visited separately: none of the bundle's visitors acts
      on them. `fuel` bounds the depth of the walk (a visitor may grow the tree
      without end); nodes below it are left as they are. */
  function Traverse(n: Node, v: Visitor, fuel: nat): Node
    decreases fuel, 0, 0
  {
    if fuel == 0 then n
    else match v(n)
      case DontTraverseChildren => n
      case Replace(m) => Descend(m, v, fuel - 1)
  }

  /** The node with each of its children traversed. */
  function Descend(m: Node, v: Visitor, fuel: nat): Node
    decreases fuel, 2, 0
  {
    match m
      case Element(name, attributes, content) =>
        Element(name, TraverseAll(attributes, v, fuel), TraverseAll(content, v, fuel))
      case Attribute(attrName, value, quote) =>
        Attribute(Traverse(attrName, v, fuel),
                  if value.Some? then Some(Traverse(value.value, v, fuel)) else None, quote)
      case Fragment(children) => Fragment(TraverseAll(children, v, fuel))
      case _ => m
  }

  function TraverseAll(ns: seq<Node>, v: Visitor, fuel: nat): (r: seq<Node>)
    ensures |r| == |ns|
    ensures forall i :: 0 <= i < |ns| ==> r[i] == Traverse(ns[i], v, fuel)
    decreases fuel, 1, |ns|
  {
    if ns == [] then [] else [Traverse(ns[0], v, fuel)] + TraverseAll(ns[1..], v, fuel)
  }

  // ------------------------------------------------ text-only visitors

  /** The tree with g applied to every text within `fuel` levels: the
      reference definition for visitors that only rewrite TextNode content. */
  function MapTexts(n: Node, g: string -> string, fuel: nat): Node
    decreases fuel, 0, 0
  {
    if fuel == 0 then n
    else match n
      case Text(s) => Text(g(s))
      case _ => MapChildren(n, g, fuel - 1)
  }

  function MapChildren(m: Node, g: string -> string, fuel: nat): Node
    decreases fuel, 2, 0
  {
    match m
      case Element(name, attributes, content) =>
        Element(name, MapAll(attributes, g, fuel), MapAll(content, g, fuel))
      case Attribute(attrName, value, quote) =>
        Attribute(MapTexts(attrName, g, fuel),
                  if value.Some? then Some(MapTexts(value.value, g, fuel)) else None, quote)
      case Fragment(children) => Fragment(MapAll(children, g, fuel))
      case _ => m
  }

  function MapAll(ns: seq<Node>, g: string -> string, fuel: nat): (r: seq<Node>)
    ensures |r| == |ns|
    ensures forall i :: 0 <= i < |ns| ==> r[i] == MapTexts(ns[i], g, fuel)
    decreases fuel, 1, |ns|
  {
    if ns == [] then [] else [MapTexts(ns[0], g, fuel)] + MapAll(ns[1..], g, fuel)
  }

  /** v rewrites text content with g and returns every other node as it is. */
  ghost predicate RewritesTexts(v: Visitor, g: string -> string) {
    forall x :: v(x) == Replace(if x.Text? then Text(g(x.text)) else x)
  }

  /** Traversing with such a visitor maps g over the texts. */
  lemma {:induction false} TraverseTexts(n: Node, v: Visitor, g: string -> string, fuel: nat)
    requires RewritesTexts(v, g)
    ensures Traverse(n, v, fuel) == MapTexts(n, g, fuel)
    decreases fuel, 0, 0
  {
    if fuel > 0 {
      assert v(n) == Replace(if n.Text? then Text(g(n.text)) else n);
      if !n.Text? {
        DescendTexts(n, v, g, fuel - 1);
      }
    }
  }

  lemma {:induction false} DescendTexts(m: Node, v: Visitor, g: string -> string, fuel: nat)
    requires RewritesTexts(v, g)
    ensures Descend(m, v, fuel) == MapChildren(m, g, fuel)
    decreases fuel, 2, 0
  {
    match m
      case Element(name, attributes, content) =>
        TraverseAllTexts(attributes, v, g, fuel);
        TraverseAllTexts(content, v, g, fuel);
      case Attribute(attrName, value, quote) =>
        TraverseTexts(attrName, v, g, fuel);
        if value.Some? {
          TraverseTexts(value.value, v, g, fuel);
        }
      case Fragment(children) =>
        TraverseAllTexts(children, v, g, fuel);
      case _ =>
  }

  lemma {:induction false} TraverseAllTexts(ns: seq<Node>, v: Visitor, g: string -> string, fuel: nat)
    requires RewritesTexts(v, g)
    ensures TraverseAll(ns, v, fuel) == MapAll(ns, g, fuel)
    decreases fuel, 1, |ns|
  {
    if ns != [] {
      TraverseTexts(ns[0], v, g, fuel);
      TraverseAllTexts(ns[1..], v, g, fuel);
    }
  }

  /** Mapping an idempotent text rewrite twice is mapping it once. */
  lemma {:induction false} MapTextsIdempotent(n: Node, g: string -> string, fuel: nat)
    requires forall s :: g(g(s)) == g(s)
    ensures MapTexts(MapTexts(n, g, fuel), g, fuel) == MapTexts(n, g, fuel)
    decreases fuel, 0, 0
  {
    if fuel > 0 && !n.Text? {
      MapChildrenIdempotent(n, g, fuel - 1);
    }
  }

  lemma {:induction false} MapChildrenIdempotent(m: Node, g: string -> string, fuel: nat)
    requires forall s :: g(g(s)) == g(s)
    requires !m.Text?
    ensures MapTexts(MapChildren(m, g, fuel), g, fuel + 1) == MapChildren(m, g, fuel)
    decreases fuel, 2, 0
  {
    match m
      case Element(name, attributes, content) =>
        MapAllIdempotent(attributes, g, fuel);
        MapAllIdempotent(content, g, fuel);
      case Attribute(attrName, value, quote) =>
        MapTextsIdempotent(attrName, g, fuel);
        if value.Some? {
          MapTextsIdempotent(value.value, g, fuel);
        }
      case Fragment(children) =>
        MapAllIdempotent(children, g, fuel);
      case Expression(_) =>
  }

  lemma {:induction false} MapAllIdempotent(ns: seq<Node>, g: string -> string, fuel: nat)
    requires forall s :: g(g(s)) == g(s)
    ensures MapAll(MapAll(ns, g, fuel), g, fuel) == MapAll(ns, g, fuel)
    decreases fuel, 1, |ns|
  {
    if ns != [] {
      MapTextsIdempotent(ns[0], g, fuel);
      MapAllIdempotent(ns[1..], g, fuel);
      assert MapAll(ns, g, fuel)[1..] == MapAll(ns[1..], g, fuel);
    }
  }

  /** Every text within `fuel` levels satisfies p. */
  predicate AllTexts(n: Node, p: string -> bool, fuel: nat)
    decreases fuel, 0, 0
  {
    fuel == 0 || match n
      case Text(s) => p(s)
      case _ => ChildTexts(n, p, fuel - 1)
  }

  predicate ChildTexts(m: Node, p: string -> bool, fuel: nat)
    decreases fuel, 2, 0
  {
    match m
      case Element(_, attributes, content) => AllTextsIn(attributes, p, fuel) && AllTextsIn(content, p, fuel)
      case Attribute(attrName, value, _) =>
        AllTexts(attrName, p, fuel) && (value.Some? ==> AllTexts(value.value, p, fuel))
      case Fragment(children) => AllTextsIn(children, p, fuel)
      case _ => true
  }

  predicate AllTextsIn(ns: seq<Node>, p: string -> bool, fuel: nat)
    decreases fuel, 1, |ns|
  {
    ns == [] || (AllTexts(ns[0], p, fuel) && AllTextsIn(ns[1..], p, fuel))
  }

  /** Mapping a rewrite whose every result satisfies p leaves only such texts. */
  lemma {:induction false} MapTextsEstablishes(n: Node, g: string -> string, p: string -> bool, fuel: nat)
    requires forall s :: p(g(s))
    ensures AllTexts(MapTexts(n, g, fuel), p, fuel)
    decreases fuel, 0, 0
  {
    if fuel > 0 && !n.Text? {
      MapChildrenEstablishes(n, g, p, fuel - 1);
    }
  }

  lemma {:induction false} MapChildrenEstablishes(m: Node, g: string -> string, p: string -> bool, fuel: nat)
    requires forall s :: p(g(s))
    ensures ChildTexts(MapChildren(m, g, fuel), p, fuel)
    decreases fuel, 2, 0
  {
    match m
      case Element(name, attributes, content) =>
        MapAllEstablishes(attributes, g, p, fuel);
        MapAllEstablishes(content, g, p, fuel);
      case Attribute(attrName, value, quote) =>
        MapTextsEstablishes(attrName, g, p, fuel);
        if value.Some? {
          MapTextsEstablishes(value.value, g, p, fuel);
        }
      case Fragment(children) =>
        MapAllEstablishes(children, g, p, fuel);
      case _ =>
  }

  lemma {:induction false} MapAllEstablishes(ns: seq<Node>, g: string -> string, p: string -> bool, fuel: nat)
    requires forall s :: p(g(s))
    ensures AllTextsIn(MapAll(ns, g, fuel), p, fuel)
    decreases fuel, 1, |ns|
  {
    if ns != [] {
      MapTextsEstablishes(ns[0], g, p, fuel);
      MapAllEstablishes(ns[1..], g, p, fuel);
      assert MapAll(ns, g, fuel)[1..] == MapAll(ns[1..], g, fuel);
    }
  }

  /** A visitor that returns every node as it is leaves the tree alone. */
  lemma {:induction false} TraverseKeepAll(n: Node, v: Visitor, fuel: nat)
    requires forall x :: v(x) == Replace(x)
    ensures Traverse(n, v, fuel) == n
    decreases fuel, 0, 0
  {
    if fuel > 0 {
      assert v(n) == Replace(n);
      match n
        case Element(name, attributes, content) =>
          TraverseAllKeepAll(attributes, v, fuel - 1);
          TraverseAllKeepAll(content, v, fuel - 1);
        case Attribute(attrName, value, quote) =>
          TraverseKeepAll(attrName, v, fuel - 1);
          if value.Some? {
            TraverseKeepAll(value.value, v, fuel - 1);
          }
        case Fragment(children) =>
          TraverseAllKeepAll(children, v, fuel - 1);
        case _ =>
    }
  }

  lemma {:induction false} TraverseAllKeepAll(ns: seq<Node>, v: Visitor, fuel: nat)
    requires forall x :: v(x) == Replace(x)
    ensures TraverseAll(ns, v, fuel) == ns
    decreases fuel, 1, |ns|
  {
    if ns != [] {
      TraverseKeepAll(ns[0], v, fuel);
      TraverseAllKeepAll(ns[1..], v, fuel);
      assert ns == [ns[0]] + ns[1..];
    }
  }

  // ------------------------------------------------ Latte node helpers

  /** NodeHelpers::toText() on an attribute name: the text of a TextNode;
      any other name has no static text and keys as "" (PHP's null key). */
  function NameText(n: Node): string {
    if n.Text? then n.text else ""
  }

  /** ElementNode::is(name): HTML element names compare case-insensitively. */
  predicate Is(n: Node, name: string) {
    n.Element? && Lower(n.name) == Lower(name)
  }

  /** What ElementNode::getAttribute(name) yields for the first attribute
      with that name (case-insensitively): true when it has no value, the text
      of a static value, or the value node itself otherwise. */
  datatype AttributeValue = NoValue | StaticValue(s: string) | DynamicValue

  function ValueOf(a: Node): AttributeValue
    requires a.Attribute?
  {
    match a.value
      case None => NoValue
      case Some(v) => if v.Text? then StaticValue(v.text) else DynamicValue
  }

  predicate NamedAttribute(a: Node, name: string) {
    a.Attribute? && a.attrName.Text? && Lower(a.attrName.text) == Lower(name)
  }

  function FindAttribute(attributes: seq<Node>, name: string): (r: Option<AttributeValue>)
    ensures r.None? <==> forall i :: 0 <= i < |attributes| ==> !NamedAttribute(attributes[i], name)
    decreases |attributes|
  {
    if attributes == [] then None
    else if NamedAttribute(attributes[0], name) then Some(ValueOf(attributes[0]))
    else
      var r := FindAttribute(attributes[1..], name);
      assert forall i :: 1 <= i < |attributes| ==> attributes[i] == attributes[1..][i - 1];
      r
  }

  /** When a is the only attribute with that name, getAttribute() finds it. */
  lemma {:induction false} FindAttributeOnly(attributes: seq<Node>, name: string, a: Node)
    requires a in attributes && NamedAttribute(a, name)
    requires forall x :: x in attributes && NamedAttribute(x, name) ==> x == a
    ensures FindAttribute(attributes, name) == Some(ValueOf(a))
    decreases |attributes|
  {
    if !NamedAttribute(attributes[0], name) {
      assert a in attributes[1..];
      FindAttributeOnly(attributes[1..], name, a);
    }
  }

  /** PHP truthiness of getAttribute()'s result. */
  predicate AttributeTruthy(r: Option<AttributeValue>) {
    match r
      case None => false
      case Some(NoValue) => true
      case Some(StaticValue(s)) => Truthy(s)
      case Some(DynamicValue) => true
  }
}
