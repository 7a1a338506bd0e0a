/** Loader::getLatteTags(): the `n:` attribute names whose values the loader
    cleans, derived from the tag names each Latte extension registers. */
module LoaderTags {
  import opened Php

  const AttributePrefix: string := "n:"

  /** `n:if` is not registered by any extension but is always handled. */
  const BuiltinTag: string := "n:if"

  predicate NoDuplicates(s: seq<string>) {
    forall i, j :: 0 <= i < j < |s| ==> s[i] != s[j]
  }

  /** PHP's `tags += keys` on two lists: union by index, so keys only
      contributes the entries at indices tags does not have yet. */
  function IndexUnion(tags: seq<string>, keys: seq<string>): (r: seq<string>)
    ensures |r| == if |keys| > |tags| then |keys| else |tags|
    ensures r[..|tags|] == tags
    ensures forall i :: |tags| <= i < |r| ==> r[i] == keys[i]
  {
    if |keys| > |tags| then tags + keys[|tags|..] else tags
  }

  /** The list after the foreach over the extensions' tag names. */
  function UnionTags(exts: seq<seq<string>>): (r: seq<string>)
    ensures |r| == Longest(exts)
    ensures r[0] == BuiltinTag
    decreases |exts|
  {
    if exts == [] then [BuiltinTag]
    else IndexUnion(UnionTags(exts[..|exts| - 1]), exts[|exts| - 1])
  }

  /** The length of the longest list, and at least 1. */
  function Longest(exts: seq<seq<string>>): (n: nat)
    ensures n >= 1
    ensures forall k :: 0 <= k < |exts| ==> |exts[k]| <= n
    decreases |exts|
  {
    if exts == [] then 1
    else
      var m := Longest(exts[..|exts| - 1]);
      assert forall k :: 0 <= k < |exts| - 1 ==> exts[..|exts| - 1][k] == exts[k];
      if |exts[|exts| - 1]| > m then |exts[|exts| - 1]| else m
  }

  lemma {:induction false} LongestBound(exts: seq<seq<string>>, m: nat)
    requires m >= 1 && forall k :: 0 <= k < |exts| ==> |exts[k]| <= m
    ensures Longest(exts) <= m
    decreases |exts|
  {
    if exts != [] {
      var init := exts[..|exts| - 1];
      assert forall k :: 0 <= k < |init| ==> init[k] == exts[k];
      LongestBound(init, m);
    }
  }

  /** Index i of the union holds the i-th name of the first extension that
      registers more than i names. */
  lemma {:induction false} UnionTagsFirstWins(exts: seq<seq<string>>, j: nat, i: nat)
    requires j < |exts| && 1 <= i < |exts[j]|
    requires forall k :: 0 <= k < j ==> |exts[k]| <= i
    ensures i < |UnionTags(exts)| && UnionTags(exts)[i] == exts[j][i]
    decreases |exts|
  {
    var init := exts[..|exts| - 1];
    assert forall k :: 0 <= k < |init| ==> init[k] == exts[k];
    if j == |exts| - 1 {
      LongestBound(init, i);
    } else {
      UnionTagsFirstWins(init, j, i);
      var u := UnionTags(init);
      assert UnionTags(exts)[..|u|] == u;
      assert UnionTags(exts)[i] == UnionTags(exts)[..|u|][i];
    }
  }

  /** r is s with some entries left out and the others kept in order. */
  predicate Subsequence(r: seq<string>, s: seq<string>)
    decreases |s|
  {
    r == [] || (s != [] && ((r[0] == s[0] && Subsequence(r[1..], s[1..])) || Subsequence(r, s[1..])))
  }

  /** array_filter with str_starts_with(tag, 'n:'). */
  function KeepAttributeTags(s: seq<string>): (r: seq<string>)
    ensures |r| <= |s|
    ensures forall x :: x in r <==> x in s && StartsWith(x, AttributePrefix)
    ensures s != [] && StartsWith(s[0], AttributePrefix) ==> r != [] && r[0] == s[0]
    ensures NoDuplicates(s) ==> NoDuplicates(r)
  {
    if s == [] then []
    else
      var rest := KeepAttributeTags(s[1..]);
      assert NoDuplicates(s) ==> NoDuplicates(s[1..]) && s[0] !in s[1..];
      if StartsWith(s[0], AttributePrefix) then [s[0]] + rest else rest
  }

  /** The filter keeps the `n:` entries, each as often as in s, in their
      order in s, and drops every other entry. */
  lemma {:induction false} KeepAttributeTagsOrder(s: seq<string>)
    ensures Subsequence(KeepAttributeTags(s), s)
    ensures forall x :: multiset(KeepAttributeTags(s))[x] == if StartsWith(x, AttributePrefix) then multiset(s)[x] else 0
    decreases |s|
  {
    if s != [] {
      var rest := KeepAttributeTags(s[1..]);
      KeepAttributeTagsOrder(s[1..]);
      assert s == [s[0]] + s[1..];
      if StartsWith(s[0], AttributePrefix) {
        assert KeepAttributeTags(s) == [s[0]] + rest;
        assert ([s[0]] + rest)[1..] == rest;
      } else {
        assert KeepAttributeTags(s) == rest;
      }
    }
  }

  /** s with every occurrence of x removed. */
  function Without(s: seq<string>, x: string): (r: seq<string>)
    ensures |r| <= |s|
    ensures forall y :: y in r <==> y in s && y != x
    ensures x !in s ==> r == s
  {
    if s == [] then []
    else
      var rest := Without(s[1..], x);
      assert s == [s[0]] + s[1..];
      if s[0] == x then rest else [s[0]] + rest
  }

  /** array_flip(array_flip(s)) read back with array_values: the first
      occurrence of each name, in order. */
  function Dedup(s: seq<string>): (r: seq<string>)
    ensures |r| <= |s|
    ensures forall x :: x in r <==> x in s
    ensures NoDuplicates(r)
    ensures s != [] ==> r != [] && r[0] == s[0]
    decreases |s|
  {
    if s == [] then []
    else
      var rest := Dedup(Without(s[1..], s[0]));
      assert s[0] !in rest;
      var r := [s[0]] + rest;
      assert forall i :: 1 <= i < |r| ==> r[i] == rest[i - 1];
      r
  }

  /** The index of the first occurrence of x in s. */
  function IndexOf(s: seq<string>, x: string): (i: nat)
    requires x in s
    ensures i < |s| && s[i] == x
    ensures forall k :: 0 <= k < i ==> s[k] != x
    decreases |s|
  {
    if s[0] == x then 0 else 1 + IndexOf(s[1..], x)
  }

  /** The entries of r appear in s, ordered by their first index in s. */
  predicate FirstOrdered(r: seq<string>, s: seq<string>) {
    forall i, j :: 0 <= i < j < |r| ==> r[i] in s && r[j] in s && IndexOf(s, r[i]) < IndexOf(s, r[j])
  }

  /** Dedup keeps the first occurrences in their order: its entries are
      ordered by where they first appear in s. */
  lemma {:induction false} DedupOrder(s: seq<string>)
    ensures FirstOrdered(Dedup(s), s)
    decreases |s|
  {
    if s != [] {
      var w := Without(s[1..], s[0]);
      DedupOrder(w);
      OrderCons(s[0], s[1..], Dedup(w));
      assert [s[0]] + s[1..] == s;
      assert Dedup(s) == [s[0]] + Dedup(w);
    }
  }

  /** Putting z in front of both lists keeps the order, once z is removed
      from the rest. */
  lemma OrderCons(z: string, t: seq<string>, rest: seq<string>)
    requires FirstOrdered(rest, Without(t, z))
    requires forall x :: x in rest ==> x in Without(t, z)
    ensures FirstOrdered([z] + rest, [z] + t)
  {
    var r := [z] + rest;
    forall i, j | 0 <= i < j < |r| ensures r[i] in [z] + t && r[j] in [z] + t && IndexOf([z] + t, r[i]) < IndexOf([z] + t, r[j]) {
      assert r[j] == rest[j - 1] && rest[j - 1] in rest;
      WithoutHas(t, z, r[j]);
      if i > 0 {
        assert r[i] == rest[i - 1];
        WithoutOrder(t, z, r[i], r[j]);
      } else {
        assert ([z] + t)[0] == z;
        assert ([z] + t)[1..] == t;
      }
    }
  }

  lemma WithoutHas(t: seq<string>, z: string, x: string)
    requires x in Without(t, z)
    ensures x in t && x != z && x in [z] + t
  {
  }

  /** Removing z keeps the order of first occurrences of the other names. */
  lemma {:induction false} WithoutOrder(t: seq<string>, z: string, x: string, y: string)
    requires x in Without(t, z) && y in Without(t, z)
    requires IndexOf(Without(t, z), x) < IndexOf(Without(t, z), y)
    ensures x in t && y in t && x != z && y != z
    ensures IndexOf([z] + t, x) < IndexOf([z] + t, y)
    decreases |t|
  {
    var w := Without(t, z);
    assert ([z] + t)[1..] == t;
    if t[0] == z {
      assert w == Without(t[1..], z);
      WithoutOrder(t[1..], z, x, y);
      assert ([z] + t[1..])[1..] == t[1..];
    } else if t[0] != x {
      assert w == [t[0]] + Without(t[1..], z);
      assert w[1..] == Without(t[1..], z);
      assert t[0] != y;
      WithoutOrder(t[1..], z, x, y);
      assert ([z] + t[1..])[1..] == t[1..];
    }
  }

  /** Dedup leaves a list without duplicates as it is. */
  lemma {:induction false} DedupDistinct(s: seq<string>)
    requires NoDuplicates(s)
    ensures Dedup(s) == s
    decreases |s|
  {
    if s != [] {
      assert s[0] !in s[1..];
      assert NoDuplicates(s[1..]);
      DedupDistinct(s[1..]);
      assert s == [s[0]] + s[1..];
    }
  }

  /** getLatteTags() as written: `+=` merges by index. */
  function LatteTagsAsWritten(exts: seq<seq<string>>): (r: seq<string>)
    ensures r != [] && r[0] == BuiltinTag
    ensures NoDuplicates(r)
    ensures forall x :: x in r <==> x in UnionTags(exts) && StartsWith(x, AttributePrefix)
  {
    Dedup(KeepAttributeTags(UnionTags(exts)))
  }

  /** The foreach of getLatteTags() as written, then the filter and the
      deduplication. */
  method GetLatteTags(exts: seq<seq<string>>) returns (tags: seq<string>)
    ensures tags == LatteTagsAsWritten(exts)
  {
    tags := [BuiltinTag];
    for i := 0 to |exts|
      invariant tags == UnionTags(exts[..i])
    {
      assert exts[..i + 1][..i] == exts[..i];
      tags := IndexUnion(tags, exts[i]);
    }
    assert exts[..|exts|] == exts;
    tags := Dedup(KeepAttributeTags(tags));
  }

  /** The element extension registers `n:id` and `n:class`; as written, the
      union by index drops `n:id`, so its values are never cleaned. */
  lemma ElementTagsLoseId(exts: seq<seq<string>>)
    requires exts == [["n:id", "n:class"]]
    ensures LatteTagsAsWritten(exts) == [BuiltinTag, "n:class"]
    ensures "n:id" !in LatteTagsAsWritten(exts)
  {
    assert exts[..0] == [];
    var u := UnionTags(exts);
    assert u == [BuiltinTag, "n:class"];
    assert StartsWith(BuiltinTag, AttributePrefix) && StartsWith("n:class", AttributePrefix);
    var k := KeepAttributeTags(u);
    assert k == u by {
      assert u[1..] == ["n:class"];
      assert KeepAttributeTags(u[1..]) == ["n:class"] by {
        assert u[1..][1..] == [];
      }
    }
    DedupDistinct(u);
  }

  // ------------------------------------------------ as intended

  /** Every extension's names appended in order: what "append keys" means. */
  function Flatten(exts: seq<seq<string>>): (r: seq<string>)
    decreases |exts|
  {
    if exts == [] then [] else Flatten(exts[..|exts| - 1]) + exts[|exts| - 1]
  }

  lemma {:induction false} FlattenHas(exts: seq<seq<string>>, j: nat, x: string)
    requires j < |exts| && x in exts[j]
    ensures x in Flatten(exts)
    decreases |exts|
  {
    if j < |exts| - 1 {
      var init := exts[..|exts| - 1];
      assert init[j] == exts[j];
      FlattenHas(init, j, x);
    }
  }

  lemma {:induction false} FlattenFrom(exts: seq<seq<string>>, x: string) returns (j: nat)
    requires x in Flatten(exts)
    ensures j < |exts| && x in exts[j]
    decreases |exts|
  {
    var init := exts[..|exts| - 1];
    if x in exts[|exts| - 1] {
      j := |exts| - 1;
    } else {
      j := FlattenFrom(init, x);
      assert init[j] == exts[j];
    }
  }

  /** getLatteTags() as intended: n:if, then every extension's tag names
      appended, filtered to `n:` names and deduplicated. */
  function LatteTags(exts: seq<seq<string>>): (r: seq<string>)
    ensures r != [] && r[0] == BuiltinTag
    ensures NoDuplicates(r)
    ensures forall x :: x in r ==> StartsWith(x, AttributePrefix)
  {
    Dedup(KeepAttributeTags([BuiltinTag] + Flatten(exts)))
  }

  /** A name is cleaned exactly when it is `n:if` or an `n:` name some
      extension registers. */
  lemma LatteTagsMembers(exts: seq<seq<string>>, x: string)
    ensures x in LatteTags(exts) <==>
      x == BuiltinTag || (StartsWith(x, AttributePrefix) && exists j :: 0 <= j < |exts| && x in exts[j])
  {
    if x in LatteTags(exts) && x != BuiltinTag {
      var j := FlattenFrom(exts, x);
    }
    if x != BuiltinTag && StartsWith(x, AttributePrefix) && exists j :: 0 <= j < |exts| && x in exts[j] {
      var j :| 0 <= j < |exts| && x in exts[j];
      FlattenHas(exts, j, x);
    }
  }

  /** With the intended merge, `n:id` from the element extension is kept. */
  lemma ElementTagsKeepId(exts: seq<seq<string>>)
    requires exts == [["n:id", "n:class"]]
    ensures "n:id" in LatteTags(exts) && "n:class" in LatteTags(exts)
  {
    assert "n:id" in exts[0] && "n:class" in exts[0];
    LatteTagsMembers(exts, "n:id");
    LatteTagsMembers(exts, "n:class");
  }
}
