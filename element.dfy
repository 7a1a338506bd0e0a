/** Northrook\Latte\Extension\ElementExtension and
    Northrook\Latte\Element\ButtonExtension: the button-type and anchor
    visitors, the pass lists and the element tags. */
module Element {
  import opened Php
  import opened Nodes
  import opened NodeCompiler
  import opened CompilerPass

  /** The attribute buttonTypeFixer appends: type="button". */
  function TypeButton(): (a: Node)
    ensures NamedAttribute(a, "type") && ValueOf(a) == StaticValue("button")
  {
    assert Lower("type") == "type";
    AttributeNode("type", Some("button"))
  }

  /** buttonTypeFixer(): expression nodes are not descended into; a button
      that already has a truthy type is left and not descended into; any other
      button gets type="button" appended and its attributes re-sorted; every
      other node is returned as it is. */
  function ButtonTypeFixer(sort: Sorter, n: Node): (r: Visit)
    ensures n.Expression? ==> r == DontTraverseChildren
    ensures Is(n, "button") && AttributeTruthy(FindAttribute(n.attributes, "type")) ==> r == DontTraverseChildren
    ensures !n.Expression? && !Is(n, "button") ==> r == Replace(n)
    ensures Is(n, "button") && !AttributeTruthy(FindAttribute(n.attributes, "type")) ==>
      r.Replace? && Is(r.node, "button") && r.node.name == n.name && r.node.content == n.content
  {
    if n.Expression? then DontTraverseChildren
    else if Is(n, "button") then
      if AttributeTruthy(FindAttribute(n.attributes, "type")) then DontTraverseChildren
      else Replace(Element(n.name, SortedAttributes(n.attributes + [TypeButton()], sort), n.content))
    else Replace(n)
  }

  /** anchorReference(): expression nodes are not descended into; the
      attributes of an `a` element are re-sorted; every other node is
      returned as it is. */
  function AnchorReference(sort: Sorter, n: Node): (r: Visit)
    ensures n.Expression? ==> r == DontTraverseChildren
    ensures !n.Expression? && !Is(n, "a") ==> r == Replace(n)
    ensures Is(n, "a") ==> r.Replace? && Is(r.node, "a") && r.node.name == n.name && r.node.content == n.content
  {
    if n.Expression? then DontTraverseChildren
    else if Is(n, "a") then Replace(Element(n.name, SortedAttributes(n.attributes, sort), n.content))
    else Replace(n)
  }

  /** A button without any type attribute gains exactly one, type="button",
      keeps every attribute name it had, and is skipped when visited again. */
  lemma ButtonTypeAdded(sort: Sorter, n: Node)
    requires Is(n, "button") && FindAttribute(n.attributes, "type").None?
    requires var cs := n.attributes + [TypeButton()];
      multiset(sort(KeyedAttributes(cs))) == multiset(KeyedAttributes(cs))
    ensures var m := ButtonTypeFixer(sort, n).node;
      && Names(m.attributes) == Names(n.attributes) + {"type"}
      && FindAttribute(m.attributes, "type") == Some(StaticValue("button"))
      && ButtonTypeFixer(sort, m) == DontTraverseChildren
  {
    var a := TypeButton();
    var cs := n.attributes + [a];
    var r := SortedAttributes(cs, sort);
    SortedAttributesNames(cs, sort);
    AppendNames(n.attributes, a);
    FindAppendedType(n.attributes, sort);
    var m := ButtonTypeFixer(sort, n).node;
    assert m.attributes == r;
  }

  /** The names of a list with one more attribute. */
  lemma AppendNames(attributes: seq<Node>, a: Node)
    requires a.Attribute?
    ensures Names(attributes + [a]) == Names(attributes) + {NameText(a.attrName)}
  {
    var cs := attributes + [a];
    assert cs[|cs| - 1] == a;
    forall k ensures k in Names(cs) <==> k in Names(attributes) + {NameText(a.attrName)} {
      if k in Names(attributes) {
        var i :| 0 <= i < |attributes| && attributes[i].Attribute? && NameText(attributes[i].attrName) == k;
        assert cs[i] == attributes[i];
      }
      if k in Names(cs) && k != NameText(a.attrName) {
        var i :| 0 <= i < |cs| && cs[i].Attribute? && NameText(cs[i].attrName) == k;
        assert i < |attributes| && cs[i] == attributes[i];
      }
    }
  }

  /** After re-sorting, getAttribute('type') finds the appended attribute. */
  lemma FindAppendedType(attributes: seq<Node>, sort: Sorter)
    requires FindAttribute(attributes, "type").None?
    requires var cs := attributes + [TypeButton()];
      multiset(sort(KeyedAttributes(cs))) == multiset(KeyedAttributes(cs))
    ensures FindAttribute(SortedAttributes(attributes + [TypeButton()], sort), "type") == Some(StaticValue("button"))
  {
    var a := TypeButton();
    var cs := attributes + [a];
    var r := SortedAttributes(cs, sort);
    SortedAttributesNames(cs, sort);
    AppendNames(attributes, a);
    SortedAttributesFrom(cs, sort);
    OnlyTypeAttribute(attributes, a, r);
    assert "type" in Names(r);
    var i :| 0 <= i < |r| && r[i].Attribute? && NameText(r[i].attrName) == "type";
    assert r[i] in cs;
    TypeNamed(r[i]);
    assert r[i] == a;
    FindAttributeOnly(r, "type", a);
  }

  /** An attribute whose static name is "type" is named "type". */
  lemma TypeNamed(x: Node)
    requires x.Attribute? && NameText(x.attrName) == "type"
    ensures NamedAttribute(x, "type")
  {
    assert Lower("type") == "type";
  }

  /** When the original attributes have no type, the appended one is the only
      attribute of the re-sorted list named type. */
  lemma OnlyTypeAttribute(attributes: seq<Node>, a: Node, r: seq<Node>)
    requires forall i :: 0 <= i < |attributes| ==> !NamedAttribute(attributes[i], "type")
    requires forall i :: 0 <= i < |r| && r[i].Attribute? ==> r[i] in attributes + [a]
    ensures forall x :: x in r && NamedAttribute(x, "type") ==> x == a
  {
    forall x | x in r && NamedAttribute(x, "type") ensures x == a {
      assert x !in attributes;
    }
  }

  /** An anchor's re-sorted attributes alternate single spaces and attributes,
      one per distinct name, with every name kept. */
  lemma AnchorSorted(sort: Sorter, n: Node)
    requires Is(n, "a")
    requires multiset(sort(KeyedAttributes(n.attributes))) == multiset(KeyedAttributes(n.attributes))
    ensures var r := AnchorReference(sort, n).node.attributes;
      && |r| == 2 * |Names(n.attributes)|
      && (forall i :: 0 <= i < |r| ==> (i % 2 == 0 <==> r[i] == Text(" ")))
      && (forall i :: 0 <= i < |r| && i % 2 == 1 ==> r[i].Attribute? && r[i] in n.attributes)
      && Names(r) == Names(n.attributes)
  {
    SortedAttributesShape(n.attributes, sort);
    SortedAttributesFrom(n.attributes, sort);
    SortedAttributesNames(n.attributes, sort);
  }

  // ------------------------------------------------ pass lists and tags

  function ButtonVisitor(sort: Sorter): Visitor {
    n => ButtonTypeFixer(sort, n)
  }

  function AnchorVisitor(sort: Sorter): Visitor {
    n => AnchorReference(sort, n)
  }

  /** ElementExtension::traverseNodes(): the button fixer, then the anchor pass. */
  function ElementTraverseNodes(sort: Sorter): (vs: seq<Visitor>)
    ensures |vs| == 2 && vs[0] == ButtonVisitor(sort) && vs[1] == AnchorVisitor(sort)
  {
    [ButtonVisitor(sort), AnchorVisitor(sort)]
  }

  /** ButtonExtension::traverseNodes(): the button fixer only. */
  function ButtonTraverseNodes(sort: Sorter): (vs: seq<Visitor>)
    ensures |vs| == 1 && vs[0] == ButtonVisitor(sort)
  {
    [ButtonVisitor(sort)]
  }

  /** The element pass is the whole button traversal followed by the whole
      anchor traversal; the button extension's pass is the button traversal. */
  lemma ElementPassOrder(root: Node, sort: Sorter, fuel: nat)
    ensures ApplyPasses(root, ElementTraverseNodes(sort), fuel)
      == Traverse(Traverse(root, ButtonVisitor(sort), fuel), AnchorVisitor(sort), fuel)
    ensures ApplyPasses(root, ButtonTraverseNodes(sort), fuel) == Traverse(root, ButtonVisitor(sort), fuel)
  {
    var vs := ElementTraverseNodes(sort);
    var bs := ButtonTraverseNodes(sort);
    assert bs[..|bs| - 1] == [];
    assert ApplyPasses(root, bs, fuel) == Traverse(root, ButtonVisitor(sort), fuel);
    assert vs[..|vs| - 1] == bs;
  }

  /** No button element and no expression anywhere in the tree. */
  predicate NoButtons(n: Node)
    decreases n, 1
  {
    !n.Expression? && !Is(n, "button") && match n
      case Element(_, attributes, content) => NoButtonsIn(attributes) && NoButtonsIn(content)
      case Attribute(attrName, value, _) => NoButtons(attrName) && (value.Some? ==> NoButtons(value.value))
      case Fragment(children) => NoButtonsIn(children)
      case _ => true
  }

  predicate NoButtonsIn(ns: seq<Node>)
    decreases ns, 0
  {
    forall i :: 0 <= i < |ns| ==> NoButtons(ns[i])
  }

  /** The button pass leaves a tree without buttons and expressions as it is. */
  lemma {:induction false} ButtonsAbsentKeep(n: Node, sort: Sorter, fuel: nat)
    requires NoButtons(n)
    ensures Traverse(n, ButtonVisitor(sort), fuel) == n
    decreases n, 1
  {
    if fuel > 0 {
      assert ButtonVisitor(sort)(n) == Replace(n);
      match n
        case Element(name, attributes, content) =>
          ButtonsAbsentKeepAll(attributes, sort, fuel - 1);
          ButtonsAbsentKeepAll(content, sort, fuel - 1);
        case Attribute(attrName, value, quote) =>
          ButtonsAbsentKeep(attrName, sort, fuel - 1);
          if value.Some? {
            ButtonsAbsentKeep(value.value, sort, fuel - 1);
          }
        case Fragment(children) =>
          ButtonsAbsentKeepAll(children, sort, fuel - 1);
        case _ =>
    }
  }

  lemma {:induction false} ButtonsAbsentKeepAll(ns: seq<Node>, sort: Sorter, fuel: nat)
    requires NoButtonsIn(ns)
    ensures TraverseAll(ns, ButtonVisitor(sort), fuel) == ns
    decreases ns, 0
  {
    forall i | 0 <= i < |ns| ensures Traverse(ns[i], ButtonVisitor(sort), fuel) == ns[i] {
      ButtonsAbsentKeep(ns[i], sort, fuel);
    }
  }

  /** ElementExtension::getTags(): the attribute tags n:id and n:class. */
  function GetTags(): (tags: seq<string>)
    ensures forall i :: 0 <= i < |tags| ==> StartsWith(tags[i], "n:")
    ensures forall i, j :: 0 <= i < j < |tags| ==> tags[i] != tags[j]
    ensures "n:id" in tags && "n:class" in tags
  {
    ["n:id", "n:class"]
  }
}
