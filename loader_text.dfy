/** The text stages of Northrook\Latte\Loader::compile(): the PCRE and
    str_ireplace rewrites, written as left-to-right scanners that, like PCRE,
    try a match at each position and resume after a successful one. */
module LoaderText {
  import opened Php
  import opened Whitespace

  // ------------------------------------------------ protect / restore `->`

  const Placeholder: string := "%%OBJECT_OPERATOR%%"

  /** `->` at the start of s with a word character after it (`->(?=\w)`). */
  predicate OperatorAt(s: string) {
    |s| >= 3 && s[0] == '-' && s[1] == '>' && IsWord(s[2])
  }

  /** s contains `->` directly followed by a word character. */
  predicate HasOperator(s: string) {
    exists i :: 0 <= i < |s| && OperatorAt(s[i..])
  }

  /** protectOperators(): every `->` followed by a word character becomes the
      placeholder; nothing else changes. */
  function Protect(s: string): (r: string)
    ensures |r| >= |s|
    ensures s == [] <==> r == []
    ensures s != [] ==> r[0] == (if OperatorAt(s) then '%' else s[0])
    ensures |s| >= 2 && s[0] == '>' ==> |r| >= 2 && (IsWord(r[1]) ==> IsWord(s[1]))
    ensures !HasOperator(r)
  {
    if s == [] then []
    else if OperatorAt(s) then
      var rest := Protect(s[2..]);
      var r := Placeholder + rest;
      assert forall i :: 0 <= i < |r| ==> !OperatorAt(r[i..]) by {
        forall i | 0 <= i < |r| ensures !OperatorAt(r[i..]) {
          if i < |Placeholder| {
            assert r[i] == Placeholder[i];
          } else {
            assert r[i..] == rest[i - |Placeholder|..];
          }
        }
      }
      r
    else
      var rest := Protect(s[1..]);
      var r := [s[0]] + rest;
      assert forall i :: 1 <= i < |r| ==> r[i..] == rest[i - 1..];
      assert !OperatorAt(r) by {
        if s[0] == '-' && |s| >= 3 && rest[0] == '>' {
          assert s[1] == '>';
        } else if |s| == 2 {
          assert rest == [s[1]] + Protect([]);
        }
      }
      r
  }

  /** The ASCII-lower-cased placeholder that str_ireplace compares with. */
  predicate PlaceholderAt(s: string) {
    |s| >= |Placeholder| && Lower(s[..|Placeholder|]) == Lower(Placeholder)
  }

  /** contentRestoreOperators(): str_ireplace of the placeholder by `->`. */
  function Restore(s: string): (r: string)
    ensures |r| <= |s|
  {
    if s == [] then []
    else if PlaceholderAt(s) then "->" + Restore(s[|Placeholder|..])
    else [s[0]] + Restore(s[1..])
  }

  predicate NoDoublePercent(s: string) {
    forall i :: 0 <= i < |s| - 1 ==> !(s[i] == '%' && s[i + 1] == '%')
  }

  /** Restoring undoes protecting on any text without `%%`. */
  lemma {:induction false} RestoreProtect(s: string)
    requires NoDoublePercent(s)
    ensures Restore(Protect(s)) == s
    decreases |s|
  {
    if s == [] {
    } else if OperatorAt(s) {
      NoDoublePercentDrop(s, 2);
      RestoreProtect(s[2..]);
      RestoreProtectOperator(s);
    } else {
      NoDoublePercentDrop(s, 1);
      RestoreProtect(s[1..]);
      RestoreProtectOther(s);
    }
  }

  lemma NoDoublePercentDrop(s: string, k: nat)
    requires NoDoublePercent(s) && k <= |s|
    ensures NoDoublePercent(s[k..])
  {
    forall i | 0 <= i < |s[k..]| - 1 ensures !(s[k..][i] == '%' && s[k..][i + 1] == '%') {
      assert s[k..][i] == s[i + k] && s[k..][i + 1] == s[i + k + 1];
    }
  }

  /** The step of the round trip at an operator. */
  lemma RestoreProtectOperator(s: string)
    requires OperatorAt(s) && Restore(Protect(s[2..])) == s[2..]
    ensures Restore(Protect(s)) == s
  {
    var rest := Protect(s[2..]);
    var p := Placeholder + rest;
    assert Protect(s) == p;
    assert p[..|Placeholder|] == Placeholder;
    RestoreAtPlaceholder(p);
    assert p[|Placeholder|..] == rest;
    RestoreEq(p[|Placeholder|..], rest);
    assert s == "->" + s[2..];
  }

  /** The step of the round trip at any other character. */
  lemma RestoreProtectOther(s: string)
    requires s != [] && !OperatorAt(s) && NoDoublePercent(s)
    requires Restore(Protect(s[1..])) == s[1..]
    ensures Restore(Protect(s)) == s
  {
    var rest := Protect(s[1..]);
    var p := [s[0]] + rest;
    assert Protect(s) == p;
    ProtectedNotPlaceholder(s, rest);
    RestoreOther(p);
    assert p[1..] == rest;
    RestoreEq(p[1..], rest);
    assert s == [s[0]] + s[1..];
  }

  /** A character that is not an operator never fuses with what protecting the
      rest produces into the placeholder, when the text holds no `%%`. */
  lemma ProtectedNotPlaceholder(s: string, rest: string)
    requires s != [] && !OperatorAt(s) && NoDoublePercent(s) && rest == Protect(s[1..])
    ensures !PlaceholderAt([s[0]] + rest)
  {
    var p := [s[0]] + rest;
    if s[0] != '%' {
      NotPlaceholder(p, 0);
    } else if |p| >= |Placeholder| {
      if OperatorAt(s[1..]) {
        assert rest == Placeholder + Protect(s[3..]);
        NotPlaceholder(p, 2);
      } else {
        NotPlaceholder(p, 1);
      }
    }
  }

  lemma RestoreOther(p: string)
    requires p != [] && !PlaceholderAt(p)
    ensures Restore(p) == [p[0]] + Restore(p[1..])
  {
  }

  lemma RestoreEq(a: string, b: string)
    requires a == b
    ensures Restore(a) == Restore(b)
  {
  }

  /** Excluding the placeholder from the input is not enough for the round trip:
      in "%%OBJECT_OPERATOR%->x" the text before `->` fuses with the inserted
      placeholder, and restoring turns the wrong occurrence back. */
  lemma PlaceholderPrefixBreaksRoundTrip(s: string)
    requires s == "%%OBJECT_OPERATOR%->x"
    ensures !HasPlaceholder(s)
    ensures Restore(Protect(s)) == "->%OBJECT_OPERATOR%%x"
  {
    CounterexampleUnprotected(s);
    CounterexampleRoundTrip(s);
  }

  lemma CounterexampleUnprotected(s: string)
    requires s == "%%OBJECT_OPERATOR%->x"
    ensures !HasPlaceholder(s)
  {
    assert Lower(Placeholder)[0] == '%' && Lower(Placeholder)[17] == '%' && Lower(Placeholder)[18] == '%';
    assert |s| == 21 && s[2] == 'O' && s[18] == '-';
    forall i | 0 <= i < |s| ensures !PlaceholderAt(s[i..]) {
      if i < 2 {
        assert s[i..][18 - i] == s[18];
        NotPlaceholder(s[i..], 18 - i);
      } else if i == 2 {
        assert s[2..][0] == s[2];
        NotPlaceholder(s[2..], 0);
      }
    }
  }

  lemma CounterexampleRoundTrip(s: string)
    requires s == "%%OBJECT_OPERATOR%->x"
    ensures Restore(Protect(s)) == "->%OBJECT_OPERATOR%%x"
  {
    var prefix := Placeholder[..|Placeholder| - 1];
    assert s == prefix + "->x";
    var p := ProtectAfterPrefix(prefix);
    var r := RestoreAfterPrefix(p);
    ExpectedRestore(r);
  }

  /** Some suffix of s starts with the placeholder, ignoring case. */
  predicate HasPlaceholder(s: string) {
    exists i :: 0 <= i < |s| && PlaceholderAt(s[i..])
  }

  lemma ExpectedRestore(r: string)
    requires r == "->" + Placeholder[1..] + "x"
    ensures r == "->%OBJECT_OPERATOR%%x"
  {
  }

  lemma ProtectAfterPrefix(prefix: string) returns (p: string)
    requires prefix == Placeholder[..|Placeholder| - 1]
    ensures p == prefix + Placeholder + "x" && Protect(prefix + "->x") == p
  {
    assert forall i :: 0 <= i < |prefix| ==> prefix[i] == Placeholder[i] != '-';
    ProtectPlain(prefix, "->x");
    var t := "->x";
    assert OperatorAt(t) && t[2..] == "x";
    p := prefix + Placeholder + "x";
  }

  lemma RestoreAfterPrefix(p: string) returns (r: string)
    requires p == Placeholder[..|Placeholder| - 1] + Placeholder + "x"
    ensures r == "->" + Placeholder[1..] + "x" && Restore(p) == r
  {
    assert p[..|Placeholder|] == Placeholder;
    RestoreAtPlaceholder(p);
    var tail := p[|Placeholder|..];
    assert tail == Placeholder[1..] + "x";
    assert tail == "%OBJECT_OPERATOR%%x";
    RestoreCounterexampleTail(tail);
    r := "->" + tail;
  }

  lemma RestoreAtPlaceholder(p: string)
    requires PlaceholderAt(p)
    ensures Restore(p) == "->" + Restore(p[|Placeholder|..])
  {
  }

  lemma RestoreCounterexampleTail(tail: string)
    requires tail == "%OBJECT_OPERATOR%%x"
    ensures Restore(tail) == tail
  {
    assert LowerChar(tail[1]) == 'o' && Lower(Placeholder)[1] == '%';
    NotPlaceholder(tail, 1);
    RestoreShort(tail[1..]);
  }

  /** A position where the text differs from the placeholder, ignoring case. */
  lemma NotPlaceholder(p: string, i: nat)
    requires i < |Placeholder| && i < |p|
    requires LowerChar(p[i]) != Lower(Placeholder)[i]
    ensures !PlaceholderAt(p)
  {
    if |p| >= |Placeholder| {
      assert Lower(p[..|Placeholder|])[i] == LowerChar(p[i]);
    }
  }

  /** Protect copies a prefix in which no operator starts and which does not
      run into one. */
  lemma {:induction false} ProtectPlain(a: string, b: string)
    requires forall i :: 0 <= i < |a| ==> a[i] != '-'
    ensures Protect(a + b) == a + Protect(b)
  {
    if a != [] {
      assert (a + b)[1..] == a[1..] + b;
      ProtectPlain(a[1..], b);
    } else {
      assert a + b == b;
    }
  }

  /** Restore copies any text shorter than the placeholder. */
  lemma {:induction false} RestoreShort(s: string)
    requires |s| < |Placeholder|
    ensures Restore(s) == s
  {
    if s != [] {
      RestoreShort(s[1..]);
    }
  }

  // ------------------------------------------------ inline namespaced tags

  /** The first index at or after i whose character is not whitespace. */
  function SkipSpaces(s: string, i: nat): (j: nat)
    requires i <= |s|
    ensures i <= j <= |s|
    ensures forall k :: i <= k < j ==> IsSpace(s[k])
    ensures j == |s| || !IsSpace(s[j])
    decreases |s| - i
  {
    if i == |s| || !IsSpace(s[i]) then i else SkipSpaces(s, i + 1)
  }

  predicate IsTagNameChar(c: char) {
    c == ':' || IsAsciiLetter(c) || IsDigit(c)
  }

  /** The first index at or after i whose character is not in `[:a-zA-Z0-9]`. */
  function SkipTagName(s: string, i: nat): (j: nat)
    requires i <= |s|
    ensures i <= j <= |s|
    ensures forall k :: i <= k < j ==> IsTagNameChar(s[k])
    ensures j == |s| || !IsTagNameChar(s[j])
    decreases |s| - i
  {
    if i == |s| || !IsTagNameChar(s[i]) then i else SkipTagName(s, i + 1)
  }

  /** Length of the match of `<\s*[a-zA-Z][:a-zA-Z0-9]*\s+[^>]*>` at the
      start of s, or 0 when there is none. Backtracking cannot change the
      outcome: the name and the spaces around it are delimited by character
      class, and the match must end at the first '>' after the name. */
  function TagLength(s: string): (n: nat)
    ensures n <= |s|
    ensures n > 0 ==> n >= 4 && s[0] == '<' && s[n - 1] == '>'
    ensures n > 0 ==> forall k :: 0 < k < n - 1 ==> s[k] != '>'
  {
    if s == [] || s[0] != '<' then 0
    else
      var a := SkipSpaces(s, 1);
      if a == |s| || !IsAsciiLetter(s[a]) then 0
      else
        var b := SkipTagName(s, a + 1);
        if b == |s| || !IsSpace(s[b]) then 0
        else
          var c := Find(s, b, '>');
          if c == |s| then 0 else c + 1
  }

  /** The pattern `<\s*[a-zA-Z][:a-zA-Z0-9]*\s+[^>]*>` matches the first n
      characters of s, with the tag name starting at index a and the
      whitespace after the name at index b. */
  predicate TagMatchWith(s: string, n: nat, a: nat, b: nat) {
    && 1 <= a < b && b + 1 < n <= |s|
    && s[0] == '<' && s[n - 1] == '>'
    && (forall k :: 1 <= k < a ==> IsSpace(s[k]))
    && IsAsciiLetter(s[a])
    && (forall k :: a < k < b ==> IsTagNameChar(s[k]))
    && IsSpace(s[b])
    && (forall k :: b < k < n - 1 ==> s[k] != '>')
  }

  ghost predicate TagMatch(s: string, n: nat) {
    exists a: nat, b: nat :: TagMatchWith(s, n, a, b)
  }

  /** The pattern matches n characters at the start of s exactly when
      TagLength(s) is n and not 0: there is at most one match at a position,
      and TagLength finds it. */
  lemma TagLengthMatches(s: string, n: nat)
    ensures TagMatch(s, n) <==> n > 0 && TagLength(s) == n
  {
    if n > 0 && TagLength(s) == n {
      TagLengthFinds(s);
    }
    if TagMatch(s, n) {
      var a: nat, b: nat :| TagMatchWith(s, n, a, b);
      TagMatchUnique(s, n, a, b);
    }
  }

  lemma TagLengthFinds(s: string)
    requires TagLength(s) > 0
    ensures TagMatch(s, TagLength(s))
  {
    var a := SkipSpaces(s, 1);
    var b := SkipTagName(s, a + 1);
    assert TagMatchWith(s, TagLength(s), a, b);
  }

  lemma TagMatchUnique(s: string, n: nat, a: nat, b: nat)
    requires TagMatchWith(s, n, a, b)
    ensures TagLength(s) == n
  {
    SkipSpacesAt(s, 1, a);
    SkipTagNameAt(s, a + 1, b);
    FindAt(s, b, n - 1);
  }

  lemma SkipSpacesAt(s: string, i: nat, j: nat)
    requires i <= j < |s| && !IsSpace(s[j]) && forall k :: i <= k < j ==> IsSpace(s[k])
    ensures SkipSpaces(s, i) == j
  {
  }

  lemma SkipTagNameAt(s: string, i: nat, j: nat)
    requires i <= j < |s| && !IsTagNameChar(s[j]) && forall k :: i <= k < j ==> IsTagNameChar(s[k])
    ensures SkipTagName(s, i) == j
  {
  }

  lemma FindAt(s: string, i: nat, j: nat)
    requires i <= j < |s| && s[j] == '>' && forall k :: i <= k < j ==> s[k] != '>'
    ensures Find(s, i, '>') == j
  {
  }

  /** A match at the start of t is still one when more text follows. */
  lemma TagMatchExtends(t: string, b: string)
    requires TagMatch(t, |t|)
    ensures TagMatch(t + b, |t|)
  {
    var x: nat, y: nat :| TagMatchWith(t, |t|, x, y);
    assert TagMatchWith(t + b, |t|, x, y);
  }

  /** inlineNamespacedElements(): every tag whose name is followed by
      whitespace has each of its whitespace runs replaced by one space. */
  function InlineTags(s: string): (r: string)
    decreases |s|
  {
    if s == [] then []
    else if TagLength(s) > 0 then
      CollapseSpace(s[..TagLength(s)]) + InlineTags(s[TagLength(s)..])
    else [s[0]] + InlineTags(s[1..])
  }

  lemma NonSpaceAppend(a: string, b: string)
    ensures NonSpace(a + b) == NonSpace(a) + NonSpace(b)
  {
    if a != [] {
      assert (a + b)[1..] == a[1..] + b;
      NonSpaceAppend(a[1..], b);
    } else {
      assert a + b == b;
    }
  }

  /** Inlining only changes whitespace. */
  lemma {:induction false} InlineTagsKeepsText(s: string)
    ensures NonSpace(InlineTags(s)) == NonSpace(s)
    decreases |s|
  {
    if s != [] {
      var n := InlineTagsStep(s);
      InlineTagsKeepsText(s[n..]);
      StepKeepsText(s, n);
    }
  }

  /** The text kept by one step of the scan, given what the rest keeps. */
  lemma StepKeepsText(s: string, n: nat)
    requires s != [] && n == (if TagLength(s) > 0 then TagLength(s) else 1) && n <= |s|
    requires NonSpace(InlineTags(s[n..])) == NonSpace(s[n..])
    ensures NonSpace(InlineTags(s)) == NonSpace(s)
  {
    var n' := InlineTagsStep(s);
    var out := StepOutput(s, n);
    StepOutputKeepsText(s, n);
    NonSpaceAppend(out, InlineTags(s[n..]));
    NonSpaceAppend(s[..n], s[n..]);
    Recombine(s, n);
    NonSpaceEq(InlineTags(s), out + InlineTags(s[n..]));
    NonSpaceEq(s[..n] + s[n..], s);
  }

  /** What one step of the scan emits for the first n characters. */
  function StepOutput(s: string, n: nat): string
    requires s != [] && n <= |s|
  {
    if TagLength(s) > 0 then CollapseSpace(s[..n]) else [s[0]]
  }

  lemma StepOutputKeepsText(s: string, n: nat)
    requires s != [] && n == (if TagLength(s) > 0 then TagLength(s) else 1) && n <= |s|
    ensures NonSpace(StepOutput(s, n)) == NonSpace(s[..n])
  {
    if TagLength(s) > 0 {
      CollapseSpaceKeepsText(s[..n]);
    } else {
      assert s[..n] == [s[0]];
    }
  }

  lemma StepOutputNoOp(s: string, n: nat)
    requires s != [] && n == (if TagLength(s) > 0 then TagLength(s) else 1) && n <= |s|
    requires OnlyPlainSpaces(s[..n]) && NoAdjacentSpace(s[..n])
    ensures StepOutput(s, n) == s[..n]
  {
    if TagLength(s) > 0 {
      CollapseSpaceFixpoint(s[..n]);
    } else {
      assert s[..n] == [s[0]];
    }
  }

  lemma Recombine(s: string, n: nat)
    requires n <= |s|
    ensures s[..n] + s[n..] == s
  {
  }

  lemma NonSpaceEq(a: string, b: string)
    requires a == b
    ensures NonSpace(a) == NonSpace(b)
  {
  }

  /** x is a + b, and a and b are a' and b', which together make up s. */
  lemma JoinEq(x: string, a: string, b: string, a': string, b': string, s: string)
    requires x == a + b && a == a' && b == b' && a' + b' == s
    ensures x == s
  {
  }

  /** A template whose whitespace is already single spaces is left as it is. */
  lemma {:induction false} InlineTagsNoOp(s: string)
    requires OnlyPlainSpaces(s) && NoAdjacentSpace(s)
    ensures InlineTags(s) == s
    decreases |s|
  {
    if s != [] {
      var n := InlineTagsStep(s);
      SingleSpacedSplit(s, n);
      InlineTagsNoOp(s[n..]);
      StepNoOp(s, n);
    }
  }

  /** One step of the scan on single-spaced text, given that the rest is left
      as it is. */
  lemma StepNoOp(s: string, n: nat)
    requires s != [] && n == (if TagLength(s) > 0 then TagLength(s) else 1) && n <= |s|
    requires OnlyPlainSpaces(s[..n]) && NoAdjacentSpace(s[..n])
    requires InlineTags(s[n..]) == s[n..]
    ensures InlineTags(s) == s
  {
    var n' := InlineTagsStep(s);
    StepOutputNoOp(s, n);
    Recombine(s, n);
    JoinEq(InlineTags(s), StepOutput(s, n), InlineTags(s[n..]), s[..n], s[n..], s);
  }

  /** One step of the scan: a tag is inlined, any other character copied. */
  lemma InlineTagsStep(s: string) returns (n: nat)
    requires s != []
    ensures n == (if TagLength(s) > 0 then TagLength(s) else 1) && n <= |s|
    ensures InlineTags(s) == StepOutput(s, n) + InlineTags(s[n..])
  {
    n := if TagLength(s) > 0 then TagLength(s) else 1;
  }

  lemma SingleSpacedSplit(s: string, n: nat)
    requires n <= |s| && OnlyPlainSpaces(s) && NoAdjacentSpace(s)
    ensures OnlyPlainSpaces(s[..n]) && NoAdjacentSpace(s[..n])
    ensures OnlyPlainSpaces(s[n..]) && NoAdjacentSpace(s[n..])
  {
    assert forall i :: 0 <= i < n ==> s[..n][i] == s[i];
    assert forall i :: 0 <= i < |s| - n ==> s[n..][i] == s[n + i];
  }

  /** Text without `<` is copied as it is: every match of the tag pattern
      starts with `<`, so only matches are rewritten. */
  lemma {:induction false} InlineTagsPlainPrefix(a: string, b: string)
    requires '<' !in a
    ensures InlineTags(a + b) == a + InlineTags(b)
    decreases |a|
  {
    if a != [] {
      var s := a + b;
      assert s[0] == a[0] && s[0] != '<';
      assert s[1..] == a[1..] + b;
      InlineTagsPlainPrefix(a[1..], b);
      PlainStep(s, a[0], a[1..] + b);
      assert [a[0]] + (a[1..] + InlineTags(b)) == ([a[0]] + a[1..]) + InlineTags(b);
      assert [a[0]] + a[1..] == a;
    } else {
      assert a + b == b;
    }
  }

  /** One step of the scan past a character that cannot open a tag. */
  lemma PlainStep(s: string, c: char, rest: string)
    requires s != [] && s[0] == c && c != '<' && s[1..] == rest
    ensures InlineTags(s) == [c] + InlineTags(rest)
  {
  }

  /** A template without `<` is left as it is, whatever its whitespace. */
  lemma InlineTagsWithoutTags(s: string)
    requires '<' !in s
    ensures InlineTags(s) == s
  {
    InlineTagsPlainPrefix(s, []);
    assert s + [] == s;
  }

  /** After plain text, a match t of the tag pattern is emitted with its
      whitespace runs collapsed, and the scan resumes right after it. */
  lemma InlineTagsAround(a: string, t: string, b: string)
    requires '<' !in a && TagMatch(t, |t|)
    ensures InlineTags(a + t + b) == a + CollapseSpace(t) + InlineTags(b)
  {
    var s := t + b;
    assert a + t + b == a + s;
    InlineTagsPlainPrefix(a, s);
    TagMatchExtends(t, b);
    TagLengthMatches(s, |t|);
    TagStep(s, |t|, t, b);
  }

  /** One step of the scan over a match of length n. */
  lemma TagStep(s: string, n: nat, t: string, b: string)
    requires s == t + b && n == |t| && TagLength(s) == n && n > 0
    ensures InlineTags(s) == CollapseSpace(t) + InlineTags(b)
  {
    assert s[..n] == t && s[n..] == b;
  }

  /** A tag split over several lines comes out on one line: what replaces
      it has no line break and only single spaces, and keeps every other
      character of the tag in order. */
  lemma InlinedTagOnOneLine(a: string, t: string, b: string) returns (m: string)
    requires '<' !in a && TagMatch(t, |t|)
    ensures InlineTags(a + t + b) == a + m + InlineTags(b)
    ensures '\n' !in m && OnlyPlainSpaces(m) && NoAdjacentSpace(m)
    ensures NonSpace(m) == NonSpace(t)
  {
    InlineTagsAround(a, t, b);
    m := CollapseSpace(t);
    CollapseSpaceKeepsText(t);
    assert forall i :: 0 <= i < |m| ==> m[i] != '\n' by {
      forall i | 0 <= i < |m| ensures m[i] != '\n' {
        assert IsSpace(m[i]) ==> m[i] == ' ';
      }
    }
  }

  // ------------------------------------------------ n:tag attributes

  /** The value left of `tag="value"` after trim(value, " {}") and the
      external trimWhitespace helper, which is a parameter here. */
  function TagValue(value: string, trimWhitespace: string -> string): string {
    trimWhitespace(Trim(value, {' ', '{', '}'}))
  }

  /** The `tag="` opener. */
  function Opener(tag: string): string {
    tag + "=\""
  }

  /** What one match is replaced with: `tag="v"`, or nothing when v is falsy
      in PHP ("" or "0"). */
  function Replacement(tag: string, v: string): string {
    if Truthy(v) then Opener(tag) + v + "\"" else ""
  }

  /** s starts with `tag="` and a closing quote follows. */
  predicate AttributeAt(s: string, tag: string) {
    StartsWith(s, Opener(tag)) && Find(s, |Opener(tag)|, '"') < |s|
  }

  /** The callback's cleaning of a matched value. */
  function Cleaner(trimWhitespace: string -> string): (clean: string -> string)
    ensures forall v :: clean(v) == TagValue(v, trimWhitespace)
  {
    v => TagValue(v, trimWhitespace)
  }

  /** One preg_replace_callback pass of `tag="(.*?)"` with the `s` flag: every
      occurrence is rewritten to its replacement for the value as `clean`
      leaves it. */
  function HandleTag(s: string, tag: string, clean: string -> string): (r: string)
    decreases |s|
  {
    if s == [] then []
    else if AttributeAt(s, tag) then
      var q := Find(s, |Opener(tag)|, '"');
      Replacement(tag, clean(s[|Opener(tag)|..q])) + HandleTag(s[q + 1..], tag, clean)
    else [s[0]] + HandleTag(s[1..], tag, clean)
  }

  /** handleLatteTags(): one pass per tag, in order. */
  function HandleLatteTags(s: string, tags: seq<string>, trimWhitespace: string -> string): (r: string)
    ensures tags == [] ==> r == s
    decreases |tags|
  {
    if tags == [] then s
    else HandleLatteTags(HandleTag(s, tags[0], Cleaner(trimWhitespace)), tags[1..], trimWhitespace)
  }

  /** A text in which the tag never appears followed by `="` is left alone. */
  lemma {:induction false} HandleTagAbsent(s: string, tag: string, clean: string -> string)
    requires forall i :: 0 <= i <= |s| ==> !StartsWith(s[i..], Opener(tag))
    ensures HandleTag(s, tag, clean) == s
    decreases |s|
  {
    if s != [] {
      assert s[0..] == s;
      assert forall i :: 0 <= i <= |s| - 1 ==> s[1..][i..] == s[i + 1..];
      HandleTagAbsent(s[1..], tag, clean);
      assert s == [s[0]] + s[1..];
    }
  }

  /** The rewrite of one occurrence: `tag="value"` at the front becomes
      `tag="v"` with the cleaned value v, or nothing when v is falsy. */
  lemma HandleTagAttribute(tag: string, value: string, rest: string, clean: string -> string)
    requires '"' !in value
    ensures HandleTag(Opener(tag) + value + "\"" + rest, tag, clean)
      == Replacement(tag, clean(value)) + HandleTag(rest, tag, clean)
  {
    QuotedAttribute(tag, value, rest);
    HandleTagAt(Opener(tag) + value + "\"" + rest, tag, clean, value, rest);
  }

  /** The same step for a text already known to hold `tag="value"` and then
      rest. */
  lemma HandleTagAt(s: string, tag: string, clean: string -> string, value: string, rest: string)
    requires AttributeAt(s, tag) && Find(s, |Opener(tag)|, '"') == |Opener(tag)| + |value|
    requires s[|Opener(tag)|..|Opener(tag)| + |value|] == value && s[|Opener(tag)| + |value| + 1..] == rest
    ensures HandleTag(s, tag, clean) == Replacement(tag, clean(value)) + HandleTag(rest, tag, clean)
  {
    HandleTagStep(s, tag, clean);
    var q := Find(s, |Opener(tag)|, '"');
    ReplacementEq(s[|Opener(tag)|..q], value, tag, clean);
    HandleTagEq(s[q + 1..], rest, tag, clean);
  }

  /** Congruence steps, stated as lemmas so that the solver need not unfold
      HandleTag on either side to see them. */
  lemma HandleTagEq(a: string, b: string, tag: string, clean: string -> string)
    requires a == b
    ensures HandleTag(a, tag, clean) == HandleTag(b, tag, clean)
  {
  }

  lemma ReplacementEq(a: string, b: string, tag: string, clean: string -> string)
    requires a == b
    ensures Replacement(tag, clean(a)) == Replacement(tag, clean(b))
  {
  }

  /** `tag="value"` followed by rest: the closing quote ends the value. */
  lemma QuotedAttribute(tag: string, value: string, rest: string)
    requires '"' !in value
    ensures var s := Opener(tag) + value + "\"" + rest;
      var q := |Opener(tag)| + |value|;
      && AttributeAt(s, tag) && Find(s, |Opener(tag)|, '"') == q
      && s[|Opener(tag)|..q] == value && s[q + 1..] == rest
  {
    var s := Opener(tag) + value + "\"" + rest;
    var o := |Opener(tag)|;
    assert s[..o] == Opener(tag);
    FindClosingQuote(s, o, value);
    assert s[o..o + |value|] == value;
  }

  lemma HandleTagStep(s: string, tag: string, clean: string -> string)
    requires AttributeAt(s, tag)
    ensures var q := Find(s, |Opener(tag)|, '"');
      HandleTag(s, tag, clean)
      == Replacement(tag, clean(s[|Opener(tag)|..q])) + HandleTag(s[q + 1..], tag, clean)
  {
    assert s != [];
  }

  lemma FindClosingQuote(s: string, o: nat, value: string)
    requires '"' !in value && o + |value| < |s|
    requires s[o..o + |value|] == value && s[o + |value|] == '"'
    ensures Find(s, o, '"') == o + |value|
  {
  }
}
