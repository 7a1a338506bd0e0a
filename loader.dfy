/** The Northrook\Latte\Loader object that hands template source to the
    Latte engine after running the bundle's preprocessing stages on it. */
module TemplateLoader {
  import opened Php
  import opened Whitespace
  import opened LoaderText
  import opened LoaderTags

  /** What compile() leaves in the content: the trimmed source when
      preprocessing is off; otherwise inline tags, protect operators, clean
      n:tag values, the user preprocessors, restore operators, then minify.
      The external Str::trimWhitespace and Minify::Latte are parameters. */
  function Compiled(raw: string, parse: bool, tags: seq<string>, stages: seq<string -> string>,
                    trimWhitespace: string -> string, minify: string -> string): string
  {
    var t := Trim(raw, TrimDefault);
    if !parse then t
    else minify(Restore(ApplyAll(stages, HandleLatteTags(Protect(InlineTags(t)), tags, trimWhitespace))))
  }

  /** The error getContent() raises for a file that cannot be read. */
  function Missing(name: string): (e: Error)
    ensures e.MissingTemplate? && e.code == 404
  {
    MissingTemplate(name, 404)
  }

  class Loader {
    /** The tag names each extension registers, in registration order. */
    const extensionTags: seq<seq<string>>
    const preprocessors: seq<string -> string>
    var content: string
    var parsePreprocessors: bool

    constructor(extensionTags: seq<seq<string>>, preprocessors: seq<string -> string>)
      ensures this.extensionTags == extensionTags && this.preprocessors == preprocessors
      ensures parsePreprocessors && content == ""
    {
      this.extensionTags := extensionTags;
      this.preprocessors := preprocessors;
      content := "";
      parsePreprocessors := true;
    }

    /** compile(): the stages run on the content field one after another. */
    method Compile(raw: string, trimWhitespace: string -> string, minify: string -> string)
      modifies this`content
      ensures content == Compiled(raw, parsePreprocessors, LatteTags(extensionTags), preprocessors, trimWhitespace, minify)
    {
      content := Trim(raw, TrimDefault);
      if !parsePreprocessors {
        return;
      }
      InlineNamespacedElements();
      ProtectOperators();
      HandleTags(trimWhitespace);
      ghost var start := content;
      for i := 0 to |preprocessors|
        invariant content == ApplyAll(preprocessors[..i], start)
      {
        assert preprocessors[..i + 1][..i] == preprocessors[..i];
        content := preprocessors[i](content);
      }
      assert preprocessors[..|preprocessors|] == preprocessors;
      ContentRestoreOperators();
      CompressContent(minify);
    }

    method InlineNamespacedElements()
      modifies this`content
      ensures content == InlineTags(old(content))
    {
      content := InlineTags(content);
    }

    method ProtectOperators()
      modifies this`content
      ensures content == Protect(old(content))
    {
      content := Protect(content);
    }

    /** handleLatteTags() over the tag list. This uses the corrected list
        LatteTags; the code computes LatteTagsAsWritten, which loses the
        first tag names of an extension (see LoaderTags). */
    method HandleTags(trimWhitespace: string -> string)
      modifies this`content
      ensures content == HandleLatteTags(old(content), LatteTags(extensionTags), trimWhitespace)
    {
      content := HandleLatteTags(content, LatteTags(extensionTags), trimWhitespace);
    }

    method ContentRestoreOperators()
      modifies this`content
      ensures content == Restore(old(content))
    {
      content := Restore(content);
    }

    method CompressContent(minify: string -> string)
      modifies this`content
      ensures content == minify(old(content))
    {
      content := minify(content);
    }

    /** getContent(name): the readable files are the map `files`; a name
        outside it is the 404 MissingTemplateException. */
    method GetContent(name: string, files: map<string, string>,
                      trimWhitespace: string -> string, minify: string -> string)
      returns (r: Result<string>)
      modifies this`content
      ensures name !in files ==> r == Err(Missing(name)) && content == old(content)
      ensures name in files ==> r == Ok(content)
      ensures name in files ==>
                content == Compiled(files[name], parsePreprocessors, LatteTags(extensionTags), preprocessors, trimWhitespace, minify)
    {
      if name !in files {
        return Err(Missing(name));
      }
      Compile(files[name], trimWhitespace, minify);
      r := Ok(content);
    }
  }

  // ------------------------------------------------ properties of the pipeline

  /** Protecting changes nothing where no operator is followed by a word
      character. */
  lemma {:induction false} ProtectNoOp(s: string)
    requires !HasOperator(s)
    ensures Protect(s) == s
    decreases |s|
  {
    if s != [] {
      assert s[0..] == s;
      assert forall i :: 0 <= i < |s| - 1 ==> s[1..][i..] == s[i + 1..];
      ProtectNoOp(s[1..]);
      assert s == [s[0]] + s[1..];
    }
  }

  /** Restoring changes nothing in a text without `%%`. */
  lemma {:induction false} RestoreNoOp(s: string)
    requires NoDoublePercent(s)
    ensures Restore(s) == s
    decreases |s|
  {
    if s != [] {
      if |s| >= 2 {
        if s[0] != '%' {
          NotPlaceholder(s, 0);
        } else {
          NotPlaceholder(s, 1);
        }
      }
      assert NoDoublePercent(s[1..]) by {
        assert forall i :: 0 <= i < |s| - 1 ==> s[1..][i] == s[i + 1];
      }
      RestoreNoOp(s[1..]);
      assert s == [s[0]] + s[1..];
    }
  }

  /** No tag of tags appears in s followed by `="`. */
  predicate NoTagAttributes(s: string, tags: seq<string>) {
    forall k, i :: 0 <= k < |tags| && 0 <= i <= |s| ==> !StartsWith(s[i..], Opener(tags[k]))
  }

  lemma {:induction false} HandleLatteTagsNoOp(s: string, tags: seq<string>, trimWhitespace: string -> string)
    requires NoTagAttributes(s, tags)
    ensures HandleLatteTags(s, tags, trimWhitespace) == s
    decreases |tags|
  {
    if tags != [] {
      HandleTagAbsent(s, tags[0], Cleaner(trimWhitespace));
      assert forall k :: 0 <= k < |tags| - 1 ==> tags[1..][k] == tags[k + 1];
      HandleLatteTagsNoOp(s, tags[1..], trimWhitespace);
    }
  }

  /** With no user preprocessors, a template whose inlined text has no `->`
      before a word character, no `%%` and no n:tag attribute reaches the
      minifier exactly as inlining leaves it. */
  lemma CompileOnlyInlines(raw: string, tags: seq<string>, trimWhitespace: string -> string, minify: string -> string)
    requires !HasOperator(InlineTags(Trim(raw, TrimDefault))) && NoDoublePercent(InlineTags(Trim(raw, TrimDefault)))
    requires NoTagAttributes(InlineTags(Trim(raw, TrimDefault)), tags)
    ensures Compiled(raw, true, tags, [], trimWhitespace, minify) == minify(InlineTags(Trim(raw, TrimDefault)))
  {
    var i := InlineTags(Trim(raw, TrimDefault));
    ProtectNoOp(i);
    HandleLatteTagsNoOp(i, tags, trimWhitespace);
    RestoreNoOp(i);
  }

  /** When, in addition, the trimmed template has no `<` or only single plain
      spaces, inlining changes nothing and the minifier gets the trimmed
      template itself. */
  lemma CompileUntouched(raw: string, tags: seq<string>, trimWhitespace: string -> string, minify: string -> string)
    requires '<' !in Trim(raw, TrimDefault) || (OnlyPlainSpaces(Trim(raw, TrimDefault)) && NoAdjacentSpace(Trim(raw, TrimDefault)))
    requires !HasOperator(Trim(raw, TrimDefault)) && NoDoublePercent(Trim(raw, TrimDefault))
    requires NoTagAttributes(Trim(raw, TrimDefault), tags)
    ensures Compiled(raw, true, tags, [], trimWhitespace, minify) == minify(Trim(raw, TrimDefault))
  {
    var t := Trim(raw, TrimDefault);
    if '<' !in t {
      InlineTagsWithoutTags(t);
    } else {
      InlineTagsNoOp(t);
    }
    CompileOnlyInlines(raw, tags, trimWhitespace, minify);
  }

  /** With preprocessing switched off the loader only trims. */
  lemma CompileDisabled(raw: string, tags: seq<string>, stages: seq<string -> string>,
                        trimWhitespace: string -> string, minify: string -> string)
    ensures Compiled(raw, false, tags, stages, trimWhitespace, minify) == Trim(raw, TrimDefault)
    ensures Compiled(raw, false, tags, stages, trimWhitespace, minify) == Trim(Compiled(raw, false, tags, stages, trimWhitespace, minify), TrimDefault)
  {
    TrimIdempotent(raw, TrimDefault);
  }
}
