/** Shared vocabulary of the model: optional values, results carrying the PHP
    exceptions the front-end raises, PHP string truthiness, and the character
    classes used by the PCRE patterns of the preprocessor and the fixers. */
module Php {

  datatype Option<T> = None | Some(value: T)

  /** The exceptions thrown by the modelled code. */
  datatype Error =
    | BadMethodCall            // \BadMethodCallException
    | Logic                    // LogicException
    | Type                     // \TypeError
    | NullCall                 // \Error: a method called on null
    | MissingTemplate(name: string, code: int)

  datatype Result<T> = Ok(value: T) | Err(error: Error)

  /** PHP's conversion of a string to bool: only "" and "0" are false. */
  predicate Truthy(s: string) {
    s != "" && s != "0"
  }

  /** PCRE `\s` without the `u` modifier: space, \t, \n, \x0B, \f, \r. */
  predicate IsSpace(c: char) {
    c == ' ' || c == '\t' || c == '\n' || c == '\U{0B}' || c == '\U{0C}' || c == '\r'
  }

  /** PCRE `\v` restricted to ASCII: \n, \x0B, \f, \r. */
  predicate IsVertical(c: char) {
    c == '\n' || c == '\U{0B}' || c == '\U{0C}' || c == '\r'
  }

  predicate IsAsciiLetter(c: char) {
    ('a' <= c <= 'z') || ('A' <= c <= 'Z')
  }

  predicate IsDigit(c: char) {
    '0' <= c <= '9'
  }

  /** PCRE `\w`: [A-Za-z0-9_]. */
  predicate IsWord(c: char) {
    IsAsciiLetter(c) || IsDigit(c) || c == '_'
  }

  /** The characters PHP's trim() strips by default: " \t\n\r\0\x0B". */
  const TrimDefault: set<char> := {' ', '\t', '\n', '\r', '\0', '\U{0B}'}

  /** PHP_INT_MAX on a 64-bit build. */
  const PhpIntMax: int := 0x7FFF_FFFF_FFFF_FFFF

  /** DIRECTORY_SEPARATOR; the model fixes the POSIX value. */
  const DirectorySeparator: char := '/'

  /** `$a.DIRECTORY_SEPARATOR.$b`. */
  function JoinPath(a: string, b: string): (r: string)
    ensures |r| == |a| + 1 + |b|
    ensures r[..|a|] == a && r[|a|] == DirectorySeparator && r[|a| + 1..] == b
  {
    a + [DirectorySeparator] + b
  }

  /** Two joined paths with the same tail are equal only if their heads are. */
  lemma JoinPathInjective(a: string, a': string, b: string)
    requires JoinPath(a, b) == JoinPath(a', b)
    ensures a == a'
  {
    assert |a| == |a'|;
    assert a == JoinPath(a, b)[..|a|];
  }

  predicate StartsWith(s: string, prefix: string) {
    |prefix| <= |s| && s[..|prefix|] == prefix
  }

  predicate EndsWith(s: string, suffix: string) {
    |suffix| <= |s| && s[|s| - |suffix|..] == suffix
  }

  /** ASCII lower-casing, as used by PHP's case-insensitive string functions. */
  function LowerChar(c: char): (r: char)
    ensures IsAsciiLetter(c) ==> 'a' <= r <= 'z'
    ensures !('A' <= c <= 'Z') ==> r == c
  {
    if 'A' <= c <= 'Z' then (c as int + 32) as char else c
  }

  function Lower(s: string): (r: string)
    ensures |r| == |s|
    ensures forall i :: 0 <= i < |s| ==> r[i] == LowerChar(s[i])
  {
    seq(|s|, i requires 0 <= i < |s| => LowerChar(s[i]))
  }

  /** The first index at or after i holding c, or |s| when there is none. */
  function Find(s: string, i: nat, c: char): (j: nat)
    requires i <= |s|
    ensures i <= j <= |s|
    ensures forall k :: i <= k < j ==> s[k] != c
    ensures j < |s| ==> s[j] == c
    decreases |s| - i
  {
    if i == |s| || s[i] == c then i else Find(s, i + 1, c)
  }

  /** A string through a list of string callbacks, each applied to the result
      of the ones before it, in list order. */
  function ApplyAll(stages: seq<string -> string>, s: string): string
    decreases |stages|
  {
    if stages == [] then s else stages[|stages| - 1](ApplyAll(stages[..|stages| - 1], s))
  }

  /** Applying a list is applying its parts one after the other. */
  lemma {:induction false} ApplyAllAppend(a: seq<string -> string>, b: seq<string -> string>, s: string)
    ensures ApplyAll(a + b, s) == ApplyAll(b, ApplyAll(a, s))
    decreases |b|
  {
    if b == [] {
      assert a + b == a;
    } else {
      assert (a + b)[..|a + b| - 1] == a + b[..|b| - 1];
      ApplyAllAppend(a, b[..|b| - 1], s);
    }
  }

  // ------------------------------------------------ string-keyed PHP arrays

  /** A PHP array with string keys, in insertion order. */
  type Assoc<V> = seq<(string, V)>

  function KeysOf<V>(a: Assoc<V>): (ks: seq<string>)
    ensures |ks| == |a| && forall i :: 0 <= i < |a| ==> ks[i] == a[i].0
    decreases |a|
  {
    if a == [] then [] else [a[0].0] + KeysOf(a[1..])
  }

  predicate DistinctKeysOf<V>(a: Assoc<V>) {
    forall i, j :: 0 <= i < j < |a| ==> a[i].0 != a[j].0
  }

  /** `$a[$k] ?? null`. */
  function Lookup<V>(a: Assoc<V>, k: string): (r: Option<V>)
    ensures r.None? <==> k !in KeysOf(a)
    ensures r.Some? ==> exists i :: 0 <= i < |a| && a[i] == (k, r.value)
    decreases |a|
  {
    if a == [] then None
    else if a[0].0 == k then Some(a[0].1)
    else
      var r := Lookup(a[1..], k);
      assert r.Some? ==> exists i :: 0 <= i < |a[1..]| && a[1..][i] == (k, r.value);
      assert forall i :: 0 <= i < |a[1..]| ==> a[1..][i] == a[i + 1];
      r
  }

  /** `$a[$k] = $v`: an existing key keeps its place and takes the value, a
      new key is appended. */
  function Put<V>(a: Assoc<V>, k: string, v: V): (r: Assoc<V>)
    ensures |r| == if k in KeysOf(a) then |a| else |a| + 1
    ensures KeysOf(r) == if k in KeysOf(a) then KeysOf(a) else KeysOf(a) + [k]
    decreases |a|
  {
    if a == [] then [(k, v)]
    else if a[0].0 == k then [(k, v)] + a[1..]
    else
      var r := [a[0]] + Put(a[1..], k, v);
      assert r[1..] == Put(a[1..], k, v);
      r
  }

  /** After `$a[$k] = $v`, the key k holds v and every other key is unchanged. */
  lemma {:induction false} PutLookup<V>(a: Assoc<V>, k: string, v: V, j: string)
    ensures Lookup(Put(a, k, v), j) == if j == k then Some(v) else Lookup(a, j)
    decreases |a|
  {
    if a != [] && a[0].0 != k {
      PutLookup(a[1..], k, v, j);
      var r := Put(a, k, v);
      assert r[1..] == Put(a[1..], k, v);
    }
  }

  /** `$a + $b`: the entries of a, then those of b whose key a lacks. */
  function Union<V>(a: Assoc<V>, b: Assoc<V>): Assoc<V>
    decreases |b|
  {
    if b == [] then a
    else if b[0].0 in KeysOf(a) then Union(a, b[1..])
    else Union(a + [b[0]], b[1..])
  }

  /** In `$a + $b` the left operand wins: a key of a keeps a's value, any
      other key has b's. */
  lemma {:induction false} UnionLookup<V>(a: Assoc<V>, b: Assoc<V>, k: string)
    ensures Lookup(Union(a, b), k) == if k in KeysOf(a) then Lookup(a, k) else Lookup(b, k)
    decreases |b|
  {
    if b != [] {
      if b[0].0 in KeysOf(a) {
        UnionLookup(a, b[1..], k);
      } else {
        var a' := a + [b[0]];
        UnionLookup(a', b[1..], k);
        LookupAppend(a, b[0], k);
        KeysOfAppend(a, b[0]);
      }
    }
  }

  lemma {:induction false} LookupAppend<V>(a: Assoc<V>, e: (string, V), k: string)
    ensures Lookup(a + [e], k) == if k in KeysOf(a) then Lookup(a, k) else if k == e.0 then Some(e.1) else None
    decreases |a|
  {
    if a != [] {
      assert (a + [e])[1..] == a[1..] + [e];
      LookupAppend(a[1..], e, k);
    }
  }

  lemma KeysOfAppend<V>(a: Assoc<V>, e: (string, V))
    ensures KeysOf(a + [e]) == KeysOf(a) + [e.0]
  {
  }
}
