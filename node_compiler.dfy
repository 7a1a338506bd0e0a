/** Northrook\Latte\Compiler\NodeCompilerTrait: node tests, node builders and
    the attribute re-sort shared by the element passes. */
module NodeCompiler {
  import opened Php
  import opened Nodes

  /** isElement(node, name): an element, and when a truthy name is given,
      one with exactly that name ("" and "0" are falsy, so they match any). */
  predicate IsElement(n: Node, name: Option<string>) {
    n.Element? && (name.None? || !Truthy(name.value) || n.name == name.value)
  }

  lemma IsElementCases(n: Node, name: string)
    ensures !n.Element? ==> !IsElement(n, Some(name)) && !IsElement(n, None)
    ensures n.Element? ==> IsElement(n, None)
    ensures n.Element? && Truthy(name) ==> (IsElement(n, Some(name)) <==> n.name == name)
  {
  }

  /** text(string): no node for null, otherwise a TextNode. */
  function TextOf(s: Option<string>): (r: Option<Node>)
    ensures r.None? <==> s.None?
    ensures s.Some? ==> r.value.Text? && r.value.text == s.value
  {
    if s.None? then None else Some(Text(s.value))
  }

  /** attributeNode(name, value): a `"`-quoted attribute with text nodes for
      its name and its value (no value node when the value is null). */
  function AttributeNode(name: string, value: Option<string>): (a: Node)
    ensures a.Attribute? && a.attrName == Text(name) && a.quote == "\""
    ensures NameText(a.attrName) == name
    ensures a.value.None? <==> value.None?
    ensures value.Some? ==> a.value == Some(Text(value.value))
  {
    Attribute(Text(name), TextOf(value), "\"")
  }

  // ------------------------------------------------ sortAttributes

  /** The attribute list keyed by name text, as the first foreach of
      sortAttributes() leaves it. */
  type Keyed = seq<(string, Node)>

  function Keys(kv: Keyed): (ks: seq<string>)
    ensures |ks| == |kv| && forall i :: 0 <= i < |kv| ==> ks[i] == kv[i].0
  {
    seq(|kv|, i requires 0 <= i < |kv| => kv[i].0)
  }

  predicate DistinctKeys(kv: Keyed) {
    forall i, j :: 0 <= i < j < |kv| ==> kv[i].0 != kv[j].0
  }

  /** Each entry holds an attribute under its own name. */
  predicate WellKeyed(kv: Keyed) {
    forall i :: 0 <= i < |kv| ==> kv[i].1.Attribute? && NameText(kv[i].1.attrName) == kv[i].0
  }

  /** The position of key k in kv, or |kv|. */
  function KeyIndex(kv: Keyed, k: string): (i: nat)
    ensures i <= |kv|
    ensures i < |kv| ==> kv[i].0 == k
    ensures i == |kv| <==> k !in Keys(kv)
    ensures forall j :: 0 <= j < i ==> kv[j].0 != k
    decreases |kv|
  {
    if kv == [] then 0
    else if kv[0].0 == k then 0
    else
      var i := KeyIndex(kv[1..], k);
      KeysCons(kv);
      i + 1
  }

  lemma KeysCons(kv: Keyed)
    requires kv != []
    ensures Keys(kv) == [kv[0].0] + Keys(kv[1..])
  {
    assert Keys(kv) == [kv[0].0] + Keys(kv[1..]);
  }

  /** `$children[key] = $attribute`: an existing key keeps its position and
      takes the new value; a new key goes last. */
  function Store(kv: Keyed, a: Node): (r: Keyed)
    requires a.Attribute?
    ensures DistinctKeys(kv) ==> DistinctKeys(r)
    ensures WellKeyed(kv) ==> WellKeyed(r)
    ensures Keys(r) == if NameText(a.attrName) in Keys(kv) then Keys(kv) else Keys(kv) + [NameText(a.attrName)]
    ensures r[KeyIndex(r, NameText(a.attrName))].1 == a
  {
    var k := NameText(a.attrName);
    var i := KeyIndex(kv, k);
    if i < |kv| then
      var r := kv[i := (k, a)];
      assert Keys(r) == Keys(kv);
      assert KeyIndex(r, k) == i;
      r
    else
      var r := kv + [(k, a)];
      assert Keys(r) == Keys(kv) + [k];
      assert KeyIndex(r, k) == |kv|;
      r
  }

  /** The first foreach of sortAttributes(): non-attributes are dropped and
      attributes stored by name. */
  function KeyedAttributes(children: seq<Node>): (r: Keyed)
    ensures DistinctKeys(r) && WellKeyed(r)
    decreases |children|
  {
    if children == [] then []
    else
      var kv := KeyedAttributes(children[..|children| - 1]);
      var a := children[|children| - 1];
      if a.Attribute? then Store(kv, a) else kv
  }

  /** Some attribute child is named k. */
  predicate HasName(children: seq<Node>, k: string) {
    exists i :: 0 <= i < |children| && children[i].Attribute? && NameText(children[i].attrName) == k
  }

  /** The name texts of the attribute children. */
  function Names(children: seq<Node>): set<string> {
    set i | 0 <= i < |children| && children[i].Attribute? :: NameText(children[i].attrName)
  }

  /** There is an entry for a name exactly when some attribute child has it. */
  lemma {:induction false} KeyedHasName(children: seq<Node>, k: string)
    ensures k in Keys(KeyedAttributes(children)) <==> HasName(children, k)
    decreases |children|
  {
    if children != [] {
      var init := children[..|children| - 1];
      KeyedHasName(init, k);
      var a := children[|children| - 1];
      if HasName(init, k) {
        var i :| 0 <= i < |init| && init[i].Attribute? && NameText(init[i].attrName) == k;
        assert children[i] == init[i];
      }
      if HasName(children, k) && !(a.Attribute? && NameText(a.attrName) == k) {
        var i :| 0 <= i < |children| && children[i].Attribute? && NameText(children[i].attrName) == k;
        assert i < |init| && init[i] == children[i];
      }
    }
  }

  /** The value stored under a name is the last attribute child with it. */
  lemma {:induction false} KeyedLastWins(children: seq<Node>, j: nat)
    requires j < |children| && children[j].Attribute?
    requires forall l :: j < l < |children| && children[l].Attribute? ==>
               NameText(children[l].attrName) != NameText(children[j].attrName)
    ensures var kv := KeyedAttributes(children);
      KeyIndex(kv, NameText(children[j].attrName)) < |kv|
      && kv[KeyIndex(kv, NameText(children[j].attrName))].1 == children[j]
    decreases |children|
  {
    var init := children[..|children| - 1];
    var k := NameText(children[j].attrName);
    assert HasName(children, k);
    KeyedHasName(children, k);
    if j < |children| - 1 {
      assert init[j] == children[j];
      assert forall l :: j < l < |init| ==> init[l] == children[l];
      KeyedLastWins(init, j);
      var kv := KeyedAttributes(init);
      var a := children[|children| - 1];
      if a.Attribute? {
        var i := KeyIndex(kv, k);
        var r := Store(kv, a);
        assert NameText(a.attrName) != k;
        assert Keys(r)[..|kv|] == Keys(kv);
        assert KeyIndex(r, k) == i by {
          KeyIndexPrefix(kv, r, k);
        }
        assert r[i] == kv[i] by {
          StoreKeeps(kv, a, i);
        }
      }
    }
  }

  lemma KeyIndexPrefix(kv: Keyed, r: Keyed, k: string)
    requires |kv| <= |r| && Keys(r)[..|kv|] == Keys(kv) && k in Keys(kv)
    ensures KeyIndex(r, k) == KeyIndex(kv, k)
  {
    var i := KeyIndex(kv, k);
    assert forall l :: 0 <= l <= i ==> r[l].0 == Keys(r)[..|kv|][l] == kv[l].0;
  }

  lemma StoreKeeps(kv: Keyed, a: Node, i: nat)
    requires a.Attribute? && i < |kv| && kv[i].0 != NameText(a.attrName)
    ensures i < |Store(kv, a)| && Store(kv, a)[i] == kv[i]
  {
  }

  /** The second foreach: a single-space TextNode before every attribute. */
  function Emit(kv: Keyed): (r: seq<Node>)
    ensures |r| == 2 * |kv|
    ensures forall i :: 0 <= i < |r| ==> r[i] == if i % 2 == 0 then Text(" ") else kv[i / 2].1
  {
    seq(2 * |kv|, i requires 0 <= i < 2 * |kv| => if i % 2 == 0 then Text(" ") else kv[i / 2].1)
  }

  /** The external Attributes::sort, applied to the keyed attributes. */
  type Sorter = Keyed -> Keyed

  /** sortAttributes(children). */
  function SortedAttributes(children: seq<Node>, sort: Sorter): seq<Node> {
    Emit(sort(KeyedAttributes(children)))
  }

  /** sortAttributes() as its two loops compute it. */
  method SortAttributes(children: seq<Node>, sort: Sorter) returns (attributes: seq<Node>)
    ensures attributes == SortedAttributes(children, sort)
  {
    var keyed: Keyed := [];
    for index := 0 to |children|
      invariant keyed == KeyedAttributes(children[..index])
    {
      assert children[..index + 1][..index] == children[..index];
      var attribute := children[index];
      if attribute.Attribute? {
        keyed := Store(keyed, attribute);
      }
    }
    assert children[..|children|] == children;
    var sorted := sort(keyed);
    attributes := [];
    for index := 0 to |sorted|
      invariant attributes == Emit(sorted[..index])
    {
      EmitAppend(sorted[..index], sorted[index]);
      assert sorted[..index + 1] == sorted[..index] + [sorted[index]];
      attributes := attributes + [Text(" "), sorted[index].1];
    }
    assert sorted[..|sorted|] == sorted;
  }

  lemma EmitAppend(kv: Keyed, e: (string, Node))
    ensures Emit(kv + [e]) == Emit(kv) + [Text(" "), e.1]
  {
    var a := Emit(kv + [e]);
    var b := Emit(kv) + [Text(" "), e.1];
    assert |a| == |b|;
    forall i | 0 <= i < |a| ensures a[i] == b[i] {
      if i < 2 * |kv| {
        assert (kv + [e])[i / 2] == kv[i / 2];
      }
    }
  }

  lemma {:induction false} DistinctCard(ks: seq<string>)
    requires forall i, j :: 0 <= i < j < |ks| ==> ks[i] != ks[j]
    ensures |set k | k in ks| == |ks|
    decreases |ks|
  {
    if ks != [] {
      var init := ks[..|ks| - 1];
      DistinctCard(init);
      var last := ks[|ks| - 1];
      assert (set k | k in ks) == (set k | k in init) + {last};
      assert last !in (set k | k in init);
    }
  }

  /** A list that alternates a single space and an attribute, starting with
      the space and ending with an attribute. */
  predicate Alternating(r: seq<Node>) {
    && (forall i :: 0 <= i < |r| ==> (i % 2 == 0 <==> r[i] == Text(" ")))
    && (forall i :: 0 <= i < |r| && i % 2 == 1 ==> r[i].Attribute?)
    && (r != [] ==> r[|r| - 1].Attribute?)
  }

  /** With a sort that permutes its input, the re-sorted list alternates a
      single space and an attribute, holds one attribute per distinct
      attribute name, and ends with an attribute. */
  lemma SortedAttributesShape(children: seq<Node>, sort: Sorter)
    requires multiset(sort(KeyedAttributes(children))) == multiset(KeyedAttributes(children))
    ensures |SortedAttributes(children, sort)| == 2 * |Names(children)|
    ensures Alternating(SortedAttributes(children, sort))
  {
    KeyedCount(children);
    EmitShape(KeyedAttributes(children), sort(KeyedAttributes(children)));
  }

  /** Emitting a permutation of well-keyed entries alternates spaces and
      attributes. */
  lemma EmitShape(kv: Keyed, s: Keyed)
    requires multiset(s) == multiset(kv) && WellKeyed(kv)
    ensures |Emit(s)| == 2 * |kv| && Alternating(Emit(s))
  {
    SortPreservesLength(kv, s);
    SortKeepsAttributes(kv, s);
    var r := Emit(s);
    forall i | 0 <= i < |r| ensures (i % 2 == 0 <==> r[i] == Text(" ")) && (i % 2 == 1 ==> r[i].Attribute?) {
      if i % 2 == 1 {
        assert i / 2 < |s|;
        assert r[i] == s[i / 2].1;
      }
    }
    if r != [] {
      assert (|r| - 1) % 2 == 1;
    }
  }

  lemma SortPreservesLength(kv: Keyed, s: Keyed)
    requires multiset(s) == multiset(kv)
    ensures |s| == |kv|
  {
    assert |multiset(s)| == |s| && |multiset(kv)| == |kv|;
  }

  lemma SortKeepsAttributes(kv: Keyed, s: Keyed)
    requires multiset(s) == multiset(kv) && WellKeyed(kv)
    ensures forall i :: 0 <= i < |s| ==> s[i].1.Attribute?
  {
    forall i | 0 <= i < |s| ensures s[i].1.Attribute? {
      assert s[i] in multiset(kv);
      var j :| 0 <= j < |kv| && kv[j] == s[i];
    }
  }

  /** One entry per distinct name. */
  lemma KeyedCount(children: seq<Node>)
    ensures |KeyedAttributes(children)| == |Names(children)|
  {
    var kv := KeyedAttributes(children);
    var ks := Keys(kv);
    DistinctCard(ks);
    forall k ensures k in ks <==> k in Names(children) {
      KeyedHasName(children, k);
      if HasName(children, k) {
        var i :| 0 <= i < |children| && children[i].Attribute? && NameText(children[i].attrName) == k;
        assert k in Names(children);
      }
    }
    assert (set k | k in ks) == Names(children);
  }

  /** Every attribute of the re-sorted list is one of the children. */
  lemma SortedAttributesFromChildren(children: seq<Node>, sort: Sorter, i: nat)
    requires multiset(sort(KeyedAttributes(children))) == multiset(KeyedAttributes(children))
    requires i < |SortedAttributes(children, sort)| / 2
    ensures SortedAttributes(children, sort)[2 * i + 1] in children
  {
    var kv := KeyedAttributes(children);
    var s := sort(kv);
    SortPreservesLength(kv, s);
    var r := Emit(s);
    assert (2 * i + 1) % 2 == 1 && (2 * i + 1) / 2 == i;
    assert r[2 * i + 1] == s[i].1;
    SortEntryFromKeyed(kv, s, i);
    var j :| 0 <= j < |kv| && kv[j] == s[i];
    KeyedFromChildren(children, j);
  }

  lemma SortEntryFromKeyed(kv: Keyed, s: Keyed, i: nat)
    requires multiset(s) == multiset(kv) && i < |s|
    ensures exists j :: 0 <= j < |kv| && kv[j] == s[i]
  {
    assert s[i] in multiset(kv);
  }

  /** Every attribute of the re-sorted list is one of the children. */
  lemma SortedAttributesFrom(children: seq<Node>, sort: Sorter)
    requires multiset(sort(KeyedAttributes(children))) == multiset(KeyedAttributes(children))
    ensures var r := SortedAttributes(children, sort);
      forall i :: 0 <= i < |r| && r[i].Attribute? ==> r[i] in children
  {
    var r := SortedAttributes(children, sort);
    SortedAttributesShape(children, sort);
    forall i | 0 <= i < |r| && r[i].Attribute? ensures r[i] in children {
      assert i % 2 == 1;
      assert i == 2 * (i / 2) + 1;
      SortedAttributesFromChildren(children, sort, i / 2);
    }
  }

  /** Re-sorting keeps exactly the attribute names the children had. */
  lemma SortedAttributesNames(children: seq<Node>, sort: Sorter)
    requires multiset(sort(KeyedAttributes(children))) == multiset(KeyedAttributes(children))
    ensures Names(SortedAttributes(children, sort)) == Names(children)
  {
    forall k ensures k in Names(SortedAttributes(children, sort)) <==> k in Names(children) {
      if k in Names(SortedAttributes(children, sort)) {
        SortedNameFromChildren(children, sort, k);
      }
      if k in Names(children) {
        ChildNameSorted(children, sort, k);
      }
    }
  }

  lemma SortedNameFromChildren(children: seq<Node>, sort: Sorter, k: string)
    requires multiset(sort(KeyedAttributes(children))) == multiset(KeyedAttributes(children))
    requires k in Names(SortedAttributes(children, sort))
    ensures k in Names(children)
  {
    var r := SortedAttributes(children, sort);
    SortedAttributesFrom(children, sort);
    var i :| 0 <= i < |r| && r[i].Attribute? && NameText(r[i].attrName) == k;
    assert r[i] in children;
    var j :| 0 <= j < |children| && children[j] == r[i];
  }

  lemma ChildNameSorted(children: seq<Node>, sort: Sorter, k: string)
    requires multiset(sort(KeyedAttributes(children))) == multiset(KeyedAttributes(children))
    requires k in Names(children)
    ensures k in Names(SortedAttributes(children, sort))
  {
    var kv := KeyedAttributes(children);
    var s := sort(kv);
    var l := KeyedEntryFor(children, k);
    var i := SortEntryIn(kv, s, l);
    var n := kv[l].1;
    assert n.Attribute? && NameText(n.attrName) == k;
    SortedEntryAt(children, sort, i);
    NameAt(SortedAttributes(children, sort), 2 * i + 1, k);
  }

  /** The entry stored for the name of an attribute child. */
  lemma KeyedEntryFor(children: seq<Node>, k: string) returns (l: nat)
    requires k in Names(children)
    ensures l < |KeyedAttributes(children)| && KeyedAttributes(children)[l].0 == k
  {
    var j :| 0 <= j < |children| && children[j].Attribute? && NameText(children[j].attrName) == k;
    assert HasName(children, k);
    KeyedHasName(children, k);
    l := KeyIndex(KeyedAttributes(children), k);
  }

  /** A keyed entry sits somewhere in the re-sorted list. */
  lemma SortEntryIn(kv: Keyed, s: Keyed, l: nat) returns (i: nat)
    requires multiset(s) == multiset(kv) && l < |kv|
    ensures i < |s| && s[i] == kv[l]
  {
    assert kv[l] in multiset(s);
    i :| 0 <= i < |s| && s[i] == kv[l];
  }

  /** The odd positions of the re-sorted list hold the sorted entries. */
  lemma SortedEntryAt(children: seq<Node>, sort: Sorter, i: nat)
    requires i < |sort(KeyedAttributes(children))|
    ensures var r := SortedAttributes(children, sort);
      2 * i + 1 < |r| && r[2 * i + 1] == sort(KeyedAttributes(children))[i].1
  {
    assert (2 * i + 1) % 2 == 1 && (2 * i + 1) / 2 == i;
  }

  lemma NameAt(r: seq<Node>, i: nat, k: string)
    requires i < |r| && r[i].Attribute? && NameText(r[i].attrName) == k
    ensures k in Names(r)
  {
  }

  lemma {:induction false} KeyedFromChildren(children: seq<Node>, j: nat)
    requires j < |KeyedAttributes(children)|
    ensures KeyedAttributes(children)[j].1 in children
    decreases |children|
  {
    var init := children[..|children| - 1];
    var kv := KeyedAttributes(init);
    var a := children[|children| - 1];
    if a.Attribute? && j == KeyIndex(Store(kv, a), NameText(a.attrName)) {
    } else {
      if a.Attribute? {
        var r := Store(kv, a);
        var k := NameText(a.attrName);
        if KeyIndex(kv, k) < |kv| {
          assert j < |kv|;
          assert r[j] == kv[j];
        } else {
          assert j < |kv|;
          assert r[j] == kv[j];
        }
      }
      KeyedFromChildren(init, j);
      assert init[..] <= children;
    }
  }
}
