/** The whitespace rewrites shared by the preprocessor and the tree fixers:
    PHP's trim(), `preg_replace('/(\s)+/', ' ', …)` and
    `preg_replace('/(\v)+/', '$1', …)`, written as scanners over characters. */
module Whitespace {
  import opened Php

  // ---------------------------------------------------------------- trim()

  /** ltrim(s, cs). */
  function TrimLeft(s: string, cs: set<char>): string {
    if s != [] && s[0] in cs then TrimLeft(s[1..], cs) else s
  }

  /** ltrim keeps a suffix of s; what it drops is in cs, and it does not
      start with a character of cs. */
  lemma {:induction false} TrimLeftShape(s: string, cs: set<char>)
    ensures var r := TrimLeft(s, cs);
            && |r| <= |s| && r == s[|s| - |r|..]
            && (forall k :: 0 <= k < |s| - |r| ==> s[k] in cs)
            && (r != [] ==> r[0] !in cs)
    decreases |s|
  {
    if s != [] && s[0] in cs {
      TrimLeftShape(s[1..], cs);
    }
  }

  /** rtrim(s, cs). */
  function TrimRight(s: string, cs: set<char>): string {
    if s != [] && s[|s| - 1] in cs then TrimRight(s[..|s| - 1], cs) else s
  }

  /** rtrim keeps a prefix of s; what it drops is in cs, and it does not end
      with a character of cs. */
  lemma {:induction false} TrimRightShape(s: string, cs: set<char>)
    ensures var r := TrimRight(s, cs);
            && |r| <= |s| && r == s[..|r|]
            && (forall k :: |r| <= k < |s| ==> s[k] in cs)
            && (r != [] ==> r[|r| - 1] !in cs)
    decreases |s|
  {
    if s != [] && s[|s| - 1] in cs {
      TrimRightShape(s[..|s| - 1], cs);
    }
  }

  /** trim(s, cs): both ends stripped of the characters of cs. */
  function Trim(s: string, cs: set<char>): string {
    TrimRight(TrimLeft(s, cs), cs)
  }

  /** The trimmed string is the slice s[i..i+|r|] left once every character
      of cs has been stripped from both ends, and its own ends are not in cs. */
  lemma TrimShape(s: string, cs: set<char>)
    ensures var r := Trim(s, cs);
            var i := |s| - |TrimLeft(s, cs)|;
            && (r != [] ==> r[0] !in cs && r[|r| - 1] !in cs)
            && 0 <= i && i + |r| <= |s| && r == s[i..i + |r|]
            && (forall k :: 0 <= k < i ==> s[k] in cs)
            && (forall k :: i + |r| <= k < |s| ==> s[k] in cs)
  {
    TrimLeftShape(s, cs);
    TrimRightShape(TrimLeft(s, cs), cs);
  }

  lemma TrimLeftFixed(s: string, cs: set<char>)
    requires s == [] || s[0] !in cs
    ensures TrimLeft(s, cs) == s
  {
  }

  lemma TrimRightFixed(s: string, cs: set<char>)
    requires s == [] || s[|s| - 1] !in cs
    ensures TrimRight(s, cs) == s
  {
  }

  /** Trimming twice is trimming once. */
  lemma TrimIdempotent(s: string, cs: set<char>)
    ensures Trim(Trim(s, cs), cs) == Trim(s, cs)
  {
    var t := Trim(s, cs);
    TrimShape(s, cs);
    TrimLeftFixed(t, cs);
    TrimRightFixed(t, cs);
  }

  // ------------------------------------------------- preg_replace('/(\s)+/', ' ')

  /** The characters of s that are not whitespace, in order. */
  function NonSpace(s: string): string {
    if s == [] then [] else (if IsSpace(s[0]) then [] else [s[0]]) + NonSpace(s[1..])
  }

  predicate OnlyPlainSpaces(s: string) {
    forall i :: 0 <= i < |s| && IsSpace(s[i]) ==> s[i] == ' '
  }

  predicate NoAdjacentSpace(s: string) {
    forall i :: 0 <= i < |s| - 1 ==> !(IsSpace(s[i]) && IsSpace(s[i + 1]))
  }

  predicate AllSpace(s: string) {
    forall i :: 0 <= i < |s| ==> IsSpace(s[i])
  }

  /** Every maximal run of whitespace becomes a single ' ': a whitespace
      character followed by another one is dropped, a last one becomes ' '. */
  function CollapseSpace(s: string): (r: string)
    ensures |r| <= |s|
    ensures |r| > 0 <==> |s| > 0
    ensures |s| > 0 ==> (IsSpace(r[0]) <==> IsSpace(s[0]))
    ensures OnlyPlainSpaces(r)
    ensures NoAdjacentSpace(r)
  {
    if s == [] then []
    else if IsSpace(s[0]) && |s| > 1 && IsSpace(s[1]) then CollapseSpace(s[1..])
    else [if IsSpace(s[0]) then ' ' else s[0]] + CollapseSpace(s[1..])
  }

  /** A whole run of whitespace in front of non-whitespace becomes one space. */
  lemma {:induction false} CollapseSpaceRun(run: string, t: string)
    requires |run| > 0 && AllSpace(run)
    requires t == [] || !IsSpace(t[0])
    ensures CollapseSpace(run + t) == [' '] + CollapseSpace(t)
  {
    if |run| > 1 {
      assert (run + t)[1..] == run[1..] + t;
      CollapseSpaceRun(run[1..], t);
    } else {
      assert (run + t)[1..] == t;
    }
  }

  /** Collapsing never adds, removes or reorders a non-whitespace character. */
  lemma {:induction false} CollapseSpaceKeepsText(s: string)
    ensures NonSpace(CollapseSpace(s)) == NonSpace(s)
  {
    if s != [] {
      CollapseSpaceKeepsText(s[1..]);
      if !(IsSpace(s[0]) && |s| > 1 && IsSpace(s[1])) {
        var c := if IsSpace(s[0]) then ' ' else s[0];
        assert ([c] + CollapseSpace(s[1..]))[1..] == CollapseSpace(s[1..]);
      }
    }
  }

  /** The strings collapsing leaves alone are exactly those whose whitespace is
      single plain spaces. */
  lemma {:induction false} CollapseSpaceFixpoint(s: string)
    ensures CollapseSpace(s) == s <==> OnlyPlainSpaces(s) && NoAdjacentSpace(s)
  {
    if OnlyPlainSpaces(s) && NoAdjacentSpace(s) && s != [] {
      assert OnlyPlainSpaces(s[1..]) && NoAdjacentSpace(s[1..]) by {
        forall i | 0 <= i < |s[1..]| - 1 ensures !(IsSpace(s[1..][i]) && IsSpace(s[1..][i + 1])) {
          assert s[1..][i] == s[i + 1] && s[1..][i + 1] == s[i + 2];
        }
      }
      CollapseSpaceFixpoint(s[1..]);
      assert [s[0]] + s[1..] == s;
    }
  }

  /** Compressing twice is compressing once. */
  lemma CollapseSpaceIdempotent(s: string)
    ensures CollapseSpace(CollapseSpace(s)) == CollapseSpace(s)
  {
    CollapseSpaceFixpoint(CollapseSpace(s));
  }

  // --------------------------------------------- preg_replace('/(\v)+/', '$1')

  /** The characters of s that are not vertical whitespace, in order. */
  function NonVertical(s: string): string {
    if s == [] then [] else (if IsVertical(s[0]) then [] else [s[0]]) + NonVertical(s[1..])
  }

  predicate NoAdjacentVertical(s: string) {
    forall i :: 0 <= i < |s| - 1 ==> !(IsVertical(s[i]) && IsVertical(s[i + 1]))
  }

  predicate AllVertical(s: string) {
    forall i :: 0 <= i < |s| ==> IsVertical(s[i])
  }

  /** Every maximal run of vertical whitespace becomes its last character (the
      last iteration of the repeated group `(\v)`); everything else is kept. */
  function KeepLastVertical(s: string): (r: string)
    ensures |r| <= |s|
    ensures |r| > 0 <==> |s| > 0
    ensures |s| > 0 ==> (IsVertical(r[0]) <==> IsVertical(s[0]))
    ensures NoAdjacentVertical(r)
  {
    if s == [] then []
    else if IsVertical(s[0]) && |s| > 1 && IsVertical(s[1]) then KeepLastVertical(s[1..])
    else [s[0]] + KeepLastVertical(s[1..])
  }

  /** A whole run of vertical whitespace is replaced by its last character. */
  lemma {:induction false} KeepLastVerticalRun(run: string, t: string)
    requires |run| > 0 && AllVertical(run)
    requires t == [] || !IsVertical(t[0])
    ensures KeepLastVertical(run + t) == [run[|run| - 1]] + KeepLastVertical(t)
  {
    if |run| > 1 {
      assert (run + t)[1..] == run[1..] + t;
      KeepLastVerticalRun(run[1..], t);
    } else {
      assert (run + t)[1..] == t;
    }
  }

  /** Horizontal whitespace and all other characters survive unchanged, in order. */
  lemma {:induction false} KeepLastVerticalKeepsRest(s: string)
    ensures NonVertical(KeepLastVertical(s)) == NonVertical(s)
  {
    if s != [] {
      KeepLastVerticalKeepsRest(s[1..]);
      if !(IsVertical(s[0]) && |s| > 1 && IsVertical(s[1])) {
        assert ([s[0]] + KeepLastVertical(s[1..]))[1..] == KeepLastVertical(s[1..]);
      }
    }
  }

  /** The strings the fixer leaves alone are exactly those without two
      adjacent vertical whitespace characters. */
  lemma {:induction false} KeepLastVerticalFixpoint(s: string)
    ensures KeepLastVertical(s) == s <==> NoAdjacentVertical(s)
  {
    if NoAdjacentVertical(s) && s != [] {
      assert NoAdjacentVertical(s[1..]) by {
        forall i | 0 <= i < |s[1..]| - 1 ensures !(IsVertical(s[1..][i]) && IsVertical(s[1..][i + 1])) {
          assert s[1..][i] == s[i + 1] && s[1..][i + 1] == s[i + 2];
        }
      }
      KeepLastVerticalFixpoint(s[1..]);
      assert [s[0]] + s[1..] == s;
    }
  }

  lemma KeepLastVerticalIdempotent(s: string)
    ensures KeepLastVertical(KeepLastVertical(s)) == KeepLastVertical(s)
  {
    KeepLastVerticalFixpoint(KeepLastVertical(s));
  }

  // ------------------------------------- the same pattern on UTF-8 bytes

  /** A byte of a PHP string. A pattern without the `u` flag reads the
      string byte by byte, not character by character. */
  newtype Byte = x: int | 0 <= x < 256

  /** `\v` on bytes: LF, VT, FF, CR and the byte 0x85 (NEL in Latin-1). */
  predicate IsVerticalByte(b: Byte) {
    b == 0x0A || b == 0x0B || b == 0x0C || b == 0x0D || b == 0x85
  }

  predicate IsContinuation(b: Byte) {
    0x80 <= b <= 0xBF
  }

  /** The shape of UTF-8: each lead byte is followed by as many continuation
      bytes as it announces (the finer limits on the second byte of some
      three- and four-byte forms are not checked). */
  predicate Utf8Shaped(s: seq<Byte>)
    decreases |s|
  {
    if s == [] then true
    else if s[0] < 0x80 then Utf8Shaped(s[1..])
    else if 0xC2 <= s[0] <= 0xDF then |s| >= 2 && IsContinuation(s[1]) && Utf8Shaped(s[2..])
    else if 0xE0 <= s[0] <= 0xEF then |s| >= 3 && IsContinuation(s[1]) && IsContinuation(s[2]) && Utf8Shaped(s[3..])
    else if 0xF0 <= s[0] <= 0xF4 then
      |s| >= 4 && IsContinuation(s[1]) && IsContinuation(s[2]) && IsContinuation(s[3]) && Utf8Shaped(s[4..])
    else false
  }

  /** `preg_replace('/(\v)+/', '$1', …)` as written: without the `u` flag it
      runs on the bytes of the text, and each run of vertical bytes becomes
      its last byte. */
  function KeepLastVerticalBytes(s: seq<Byte>): (r: seq<Byte>)
    ensures |r| <= |s|
    ensures |r| > 0 <==> |s| > 0
    ensures |s| > 0 ==> (IsVerticalByte(r[0]) <==> IsVerticalByte(s[0]))
    ensures forall i :: 0 <= i < |r| - 1 ==> !(IsVerticalByte(r[i]) && IsVerticalByte(r[i + 1]))
  {
    if s == [] then []
    else if IsVerticalByte(s[0]) && |s| > 1 && IsVerticalByte(s[1]) then KeepLastVerticalBytes(s[1..])
    else [s[0]] + KeepLastVerticalBytes(s[1..])
  }

  /** `х\n` is the UTF-8 bytes D1 85 0A. As written, the pattern counts the
      letter's second byte 0x85 as vertical whitespace and keeps only the
      line feed of the run 85 0A: the result D1 0A is no longer UTF-8. */
  lemma VerticalBytesBreakUtf8(s: seq<Byte>)
    requires s == [0xD1, 0x85, 0x0A]
    ensures Utf8Shaped(s)
    ensures KeepLastVerticalBytes(s) == [0xD1, 0x0A]
    ensures !Utf8Shaped(KeepLastVerticalBytes(s))
  {
    assert s[1..] == [0x85, 0x0A] && s[1..][1..] == [0x0A];
    assert s[2..] == [0x0A] && s[2..][1..] == [];
    assert KeepLastVerticalBytes([0x0A]) == [0x0A];
    assert KeepLastVerticalBytes(s[1..]) == [0x0A];
  }

  /** As intended, on characters (the `u` flag): the letter `х` is not
      vertical whitespace, so `х\n` is left as it is. */
  lemma VerticalCharsKeepLetter(s: string)
    requires s == "\U{0445}\n"
    ensures KeepLastVertical(s) == s
  {
    assert !IsVertical(s[0]);
    KeepLastVerticalFixpoint(s);
  }
}
