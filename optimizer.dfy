/** Northrook\Latte\Extension\OptimizerExtension, in both of its versions:
    the attribute-separator whitespace fixer, the vertical-whitespace fixer,
    the compressor and the list of passes. */
module Optimizer {
  import opened Php
  import opened Whitespace
  import opened Nodes
  import opened CompilerPass

  // ------------------------------------------------ nodeWhitespaceFixer

  /** One step of nodeWhitespaceFixer's loop, on the child at some index: a
      text holding "\n" becomes "" when it is the last child and " " otherwise;
      a text holding " " becomes " ", or "" when the (already fixed) previous
      child is the text " "; every other child stays as it is. */
  function FixSeparator(c: Node, isLast: bool, previous: Option<Node>): Node {
    if !c.Text? then c
    else if '\n' in c.text then Text(if isLast then "" else " ")
    else if ' ' in c.text then
      if previous == Some(Text(" ")) then Text("") else Text(" ")
    else c
  }

  /** The attribute children once the loop has run over the first i of them;
      a step reads the previous child as the earlier steps left it. */
  function FixedUpTo(cs: seq<Node>, i: nat): (r: seq<Node>)
    requires i <= |cs|
    ensures |r| == |cs|
    ensures r[i..] == cs[i..]
    decreases i
  {
    if i == 0 then cs
    else
      var a := FixedUpTo(cs, i - 1);
      a[i - 1 := FixSeparator(cs[i - 1], i == |cs|, if i > 1 then Some(a[i - 2]) else None)]
  }

  function FixSeparators(cs: seq<Node>): seq<Node> {
    FixedUpTo(cs, |cs|)
  }

  /** Later steps do not touch the children earlier steps fixed. */
  lemma {:induction false} FixedUpToStable(cs: seq<Node>, i: nat, j: nat)
    requires j <= i <= |cs|
    ensures FixedUpTo(cs, i)[..j] == FixedUpTo(cs, j)[..j]
    decreases i
  {
    if j < i {
      FixedUpToStable(cs, i - 1, j);
    }
  }

  /** What nodeWhitespaceFixer makes of the attribute child at index i: the
      list keeps its length, only texts change, a text with "\n" becomes "" if
      last and " " otherwise, a text with " " (and no "\n") becomes "" right
      after a fixed " " text and " " otherwise, and any other text is kept. */
  lemma FixSeparatorsCases(cs: seq<Node>, i: nat)
    requires i < |cs|
    ensures |FixSeparators(cs)| == |cs|
    ensures FixSeparators(cs)[i].Text? <==> cs[i].Text?
    ensures !cs[i].Text? ==> FixSeparators(cs)[i] == cs[i]
    ensures cs[i].Text? && '\n' in cs[i].text ==>
      FixSeparators(cs)[i] == Text(if i == |cs| - 1 then "" else " ")
    ensures cs[i].Text? && '\n' !in cs[i].text && ' ' in cs[i].text ==>
      FixSeparators(cs)[i] == Text(if i > 0 && FixSeparators(cs)[i - 1] == Text(" ") then "" else " ")
    ensures cs[i].Text? && '\n' !in cs[i].text && ' ' !in cs[i].text ==> FixSeparators(cs)[i] == cs[i]
  {
    var r := FixSeparators(cs);
    FixedUpToStable(cs, |cs|, i + 1);
    assert r[i] == FixedUpTo(cs, i + 1)[i];
    if i > 0 {
      FixedUpToStable(cs, i, i);
      FixedUpToStable(cs, |cs|, i);
      assert r[i - 1] == FixedUpTo(cs, i)[i - 1];
    }
    assert r[i] == FixSeparator(cs[i], i == |cs| - 1, if i > 0 then Some(r[i - 1]) else None);
  }

  /** No attribute text keeps a line break. */
  lemma FixSeparatorsNoNewline(cs: seq<Node>)
    ensures var r := FixSeparators(cs);
      forall i :: 0 <= i < |r| && r[i].Text? ==> '\n' !in r[i].text
  {
    var r := FixSeparators(cs);
    forall i | 0 <= i < |r| && r[i].Text? ensures '\n' !in r[i].text {
      FixSeparatorsCases(cs, i);
    }
  }

  predicate NoNewlineTexts(cs: seq<Node>) {
    forall i :: 0 <= i < |cs| && cs[i].Text? ==> '\n' !in cs[i].text
  }

  /** Without line breaks in the attribute texts, fixing twice is fixing once. */
  lemma FixSeparatorsIdempotent(cs: seq<Node>)
    requires NoNewlineTexts(cs)
    ensures FixSeparators(FixSeparators(cs)) == FixSeparators(cs)
  {
    FixSeparatorsAgree(cs, |cs|);
  }

  lemma {:induction false} FixSeparatorsAgree(cs: seq<Node>, n: nat)
    requires NoNewlineTexts(cs) && n <= |cs|
    ensures var r := FixSeparators(cs);
      FixSeparators(r)[..n] == r[..n]
  {
    var r := FixSeparators(cs);
    var q := FixSeparators(r);
    if n > 0 {
      FixSeparatorsAgree(cs, n - 1);
      var i := n - 1;
      FixSeparatorsCases(cs, i);
      FixSeparatorsCases(r, i);
      if i > 0 {
        assert q[i - 1] == q[..n - 1][i - 1] == r[..n - 1][i - 1] == r[i - 1];
      }
      assert q[i] == r[i];
      assert q[..n] == q[..n - 1] + [q[i]];
      assert r[..n] == r[..n - 1] + [r[i]];
    }
  }

  /** A line-breaking text right after a space text is turned into a second
      single space, which the next run empties: the fixer is not idempotent
      once line breaks are involved. */
  lemma NewlineAfterSpaceNotIdempotent(cs: seq<Node>, a: Node)
    requires a == Attribute(Text("id"), None, "\"") && cs == [Text(" "), Text("\n"), a]
    ensures FixSeparators(cs) == [Text(" "), Text(" "), a]
    ensures FixSeparators(FixSeparators(cs)) == [Text(" "), Text(""), a]
  {
    assert '\n' in cs[1].text && ' ' in cs[0].text && '\n' !in cs[0].text;
    var r := FixSeparators(cs);
    FixSeparatorsCases(cs, 0);
    FixSeparatorsCases(cs, 1);
    FixSeparatorsCases(cs, 2);
    assert r == [Text(" "), Text(" "), a];
    assert ' ' in r[1].text && '\n' !in r[1].text && ' ' in r[0].text && '\n' !in r[0].text;
    FixSeparatorsCases(r, 0);
    FixSeparatorsCases(r, 1);
    FixSeparatorsCases(r, 2);
  }

  /** nodeWhitespaceFixer(): elements with attribute children get their
      separators fixed; every other node is returned as it is. */
  function NodeWhitespaceFixer(n: Node): (r: Node)
    ensures !n.Element? || n.attributes == [] ==> r == n
    ensures n.Element? ==> r.Element? && r.name == n.name && r.content == n.content
    ensures n.Element? && n.attributes != [] ==> r.attributes == FixSeparators(n.attributes)
  {
    if n.Element? && n.attributes != [] then Element(n.name, FixSeparators(n.attributes), n.content) else n
  }

  /** The loop of nodeWhitespaceFixer() over the attribute children, writing
      each text in place and reading the previous child as already written. */
  method FixAttributeSeparators(a: array<Node>)
    modifies a
    ensures a[..] == FixSeparators(old(a[..]))
  {
    ghost var cs := a[..];
    for i := 0 to a.Length
      invariant a[..] == FixedUpTo(cs, i)
    {
      var previous := if i > 0 then Some(a[i - 1]) else None;
      a[i] := FixSeparator(a[i], i == a.Length - 1, previous);
    }
  }

  // ------------------------------------------------ textWhitespaceFixer

  /** TextNode::isWhitespace(): nothing is left once trim() is done. */
  predicate IsWhitespaceText(s: string) {
    Trim(s, TrimDefault) == []
  }

  /** The content textWhitespaceFixer writes: vertical runs reduced to their
      last character when normalising everywhere or when the text is blank. */
  function FixVertical(normalize: bool, s: string): string {
    if normalize || IsWhitespaceText(s) then KeepLastVertical(s) else s
  }

  function TextWhitespaceFixer(normalize: bool, n: Node): Node {
    if n.Text? then Text(FixVertical(normalize, n.text)) else n
  }

  /** A text is blank exactly when every character is in trim()'s set. */
  lemma BlankIff(s: string)
    ensures IsWhitespaceText(s) <==> forall i :: 0 <= i < |s| ==> s[i] in TrimDefault
  {
    TrimShape(s, TrimDefault);
  }

  /** Every character KeepLastVertical leaves comes from its input. */
  lemma {:induction false} KeepLastVerticalFrom(s: string)
    ensures forall c :: c in KeepLastVertical(s) ==> c in s
  {
    if s != [] {
      KeepLastVerticalFrom(s[1..]);
      assert s == [s[0]] + s[1..];
    }
  }

  /** What the fixer writes it would leave alone. */
  lemma FixVerticalIdempotent(normalize: bool, s: string)
    ensures FixVertical(normalize, FixVertical(normalize, s)) == FixVertical(normalize, s)
  {
    if normalize || IsWhitespaceText(s) {
      var r := KeepLastVertical(s);
      KeepLastVerticalIdempotent(s);
      if !normalize {
        BlankIff(s);
        KeepLastVerticalFrom(s);
        BlankIff(r);
      }
    }
  }

  /** The text fixer never leaves two adjacent vertical whitespace characters
      where it acts, keeps every other character in order, and leaves texts it
      does not act on unchanged. */
  lemma FixVerticalEffect(normalize: bool, s: string)
    ensures normalize || IsWhitespaceText(s) ==>
      NoAdjacentVertical(FixVertical(normalize, s)) && NonVertical(FixVertical(normalize, s)) == NonVertical(s)
    ensures !normalize && !IsWhitespaceText(s) ==> FixVertical(normalize, s) == s
  {
    KeepLastVerticalKeepsRest(s);
  }

  // ------------------------------------------------ templateCompressor

  function TemplateCompressor(n: Node): Node {
    if n.Text? then Text(CollapseSpace(n.text)) else n
  }

  /** Texts in which every whitespace character is a lone plain space. */
  predicate Compact(s: string) {
    OnlyPlainSpaces(s) && NoAdjacentSpace(s)
  }

  // ------------------------------------------------ visitors and passes

  function NodeFixerVisitor(): Visitor {
    n => Replace(NodeWhitespaceFixer(n))
  }

  function TextFixerVisitor(normalize: bool): Visitor {
    n => Replace(TextWhitespaceFixer(normalize, n))
  }

  function CompressorVisitor(): Visitor {
    n => Replace(TemplateCompressor(n))
  }

  /** The entries of traverseNodes(). */
  datatype Pass = NodeWhitespace | TextWhitespace | Compress

  function PassKey(p: Pass): string {
    match p
      case NodeWhitespace => "nodeWhitespaceFixer"
      case TextWhitespace => "textWhitespaceFixer"
      case Compress => "compress"
  }

  /** traverseNodes(): the node fixer, then the text fixer, then the
      compressor when compressing. */
  function TraverseNodes(compress: bool): (ps: seq<Pass>)
    ensures |ps| == (if compress then 3 else 2)
    ensures ps[0] == NodeWhitespace && ps[1] == TextWhitespace
    ensures compress ==> ps[2] == Compress
    ensures forall i, j :: 0 <= i < j < |ps| ==> PassKey(ps[i]) != PassKey(ps[j])
  {
    [NodeWhitespace, TextWhitespace] + (if compress then [Compress] else [])
  }

  function Callback(p: Pass, normalize: bool): Visitor {
    match p
      case NodeWhitespace => NodeFixerVisitor()
      case TextWhitespace => TextFixerVisitor(normalize)
      case Compress => CompressorVisitor()
  }

  function Callbacks(ps: seq<Pass>, normalize: bool): (vs: seq<Visitor>)
    ensures |vs| == |ps| && forall i :: 0 <= i < |ps| ==> vs[i] == Callback(ps[i], normalize)
  {
    seq(|ps|, i requires 0 <= i < |ps| => Callback(ps[i], normalize))
  }

  /** Extension/OptimizerExtension as a CompilerPassExtension: each entry of
      traverseNodes() is its own full traversal, in list order. */
  function Optimize(root: Node, normalize: bool, compress: bool, fuel: nat): Node {
    ApplyPasses(root, Callbacks(TraverseNodes(compress), normalize), fuel)
  }

  /** The text passes act on texts only, as a map over the tree. */
  lemma TextPassesMapTexts(n: Node, normalize: bool, fuel: nat)
    ensures Traverse(n, TextFixerVisitor(normalize), fuel) == MapTexts(n, s => FixVertical(normalize, s), fuel)
    ensures Traverse(n, CompressorVisitor(), fuel) == MapTexts(n, CollapseSpace, fuel)
  {
    TextFixerMapsTexts(n, normalize, fuel);
    CompressorMapsTexts(n, fuel);
  }

  lemma TextFixerMapsTexts(n: Node, normalize: bool, fuel: nat)
    ensures Traverse(n, TextFixerVisitor(normalize), fuel) == MapTexts(n, s => FixVertical(normalize, s), fuel)
  {
    TraverseTexts(n, TextFixerVisitor(normalize), s => FixVertical(normalize, s), fuel);
  }

  lemma CompressorMapsTexts(n: Node, fuel: nat)
    ensures Traverse(n, CompressorVisitor(), fuel) == MapTexts(n, CollapseSpace, fuel)
  {
    TraverseTexts(n, CompressorVisitor(), CollapseSpace, fuel);
  }

  /** The optimiser is the separator fixing traversal followed by the two text
      maps, the second only when compressing. */
  lemma OptimizeStages(root: Node, normalize: bool, compress: bool, fuel: nat)
    ensures var fixed := MapTexts(Traverse(root, NodeFixerVisitor(), fuel), s => FixVertical(normalize, s), fuel);
      Optimize(root, normalize, compress, fuel) == if compress then MapTexts(fixed, CollapseSpace, fuel) else fixed
  {
    var cs := Callbacks(TraverseNodes(compress), normalize);
    var first := Traverse(root, NodeFixerVisitor(), fuel);
    assert cs[..1] == [NodeFixerVisitor()];
    assert ApplyPasses(root, cs[..1], fuel) == first by {
      assert cs[..1][..0] == [];
    }
    assert cs[..2][..1] == cs[..1];
    TextPassesMapTexts(first, normalize, fuel);
    if compress {
      assert cs[..3] == cs;
      assert cs[..3][..2] == cs[..2];
      TextPassesMapTexts(ApplyPasses(root, cs[..2], fuel), normalize, fuel);
    } else {
      assert cs[..2] == cs;
    }
  }

  /** With compression on, every text within reach of the walk ends up with
      only lone plain spaces. */
  lemma OptimizeCompacts(root: Node, normalize: bool, fuel: nat)
    ensures AllTexts(Optimize(root, normalize, true, fuel), Compact, fuel)
  {
    OptimizeStages(root, normalize, true, fuel);
    var fixed := MapTexts(Traverse(root, NodeFixerVisitor(), fuel), s => FixVertical(normalize, s), fuel);
    MapTextsEstablishes(fixed, CollapseSpace, Compact, fuel);
  }

  /** Running just the compressor a second time changes nothing. */
  lemma CompressorIdempotent(n: Node, fuel: nat)
    ensures var once := Traverse(n, CompressorVisitor(), fuel);
      Traverse(once, CompressorVisitor(), fuel) == once
  {
    TextPassesMapTexts(n, false, fuel);
    TextPassesMapTexts(MapTexts(n, CollapseSpace, fuel), false, fuel);
    forall s ensures CollapseSpace(CollapseSpace(s)) == CollapseSpace(s) {
      CollapseSpaceIdempotent(s);
    }
    MapTextsIdempotent(n, CollapseSpace, fuel);
  }

  /** Running just the text fixer a second time changes nothing. */
  lemma TextFixerIdempotent(n: Node, normalize: bool, fuel: nat)
    ensures var once := Traverse(n, TextFixerVisitor(normalize), fuel);
      Traverse(once, TextFixerVisitor(normalize), fuel) == once
  {
    var g := s => FixVertical(normalize, s);
    TextPassesMapTexts(n, normalize, fuel);
    TextPassesMapTexts(MapTexts(n, g, fuel), normalize, fuel);
    forall s ensures g(g(s)) == g(s) {
      FixVerticalIdempotent(normalize, s);
    }
    MapTextsIdempotent(n, g, fuel);
  }

  // ------------------------------------------------ src/Latte/Extension version

  /** The visitor src/Latte/Extension/OptimizerExtension::getPasses() hands to
      the traverser is traverseNodes() itself; its result is an array, neither
      a node nor a traverser signal, so the traverser keeps each node and walks
      on. */
  function TraverseNodesAsVisitor(): Visitor {
    n => Replace(n)
  }

  /** That pass leaves every template as it was: none of the fixers runs. */
  lemma AsWrittenPassKeepsTemplate(root: Node, fuel: nat)
    ensures Traverse(root, TraverseNodesAsVisitor(), fuel) == root
  {
    TraverseKeepAll(root, TraverseNodesAsVisitor(), fuel);
  }

  /** A template whose text the corrected pass compacts while the pass as
      written leaves it. */
  lemma AsWrittenPassMissesCompression(root: Node)
    requires root == Fragment([Text("a  b")])
    ensures Traverse(root, TraverseNodesAsVisitor(), 2) == root
    ensures Optimize(root, false, true, 2) != root
  {
    AsWrittenPassKeepsTemplate(root, 2);
    OptimizeCompacts(root, false, 2);
    var s := "a  b";
    assert IsSpace(s[1]) && IsSpace(s[2]);
    assert !Compact(s);
    assert !AllTexts(root, Compact, 2) by {
      assert !AllTexts(root.children[0], Compact, 1);
    }
  }
}
