# Latte bundle front-end, modelled in Dafny

This project models the core of `northrook/latte-bundle`, a front-end for the
Latte template engine. It covers five parts.

- **Template resolution.**
  - `TemplateChainLoader` is a priority-keyed directory registry with a
    one-way lock. Its `load` resolves a template name against the project
    directory and the registered directories, highest priority first.
  - `Render::load` does the same search over an unsorted list.
- **The raw-text preprocessor `Loader`.** It trims the source, then runs
  these stages:
  - put multi-line tags on one line;
  - protect `->` operators;
  - normalise the `n:` attribute values;
  - run the user preprocessors;
  - restore the operators;
  - minify.

  It also derives the `n:` tag list, normalises `..`/`.` paths and resolves
  names relative to a referring template.
- **Compiler passes over the template tree.**
  - the attribute-separator whitespace fixer;
  - the vertical-whitespace fixer;
  - the compressor;
  - the attribute re-sort helper;
  - the button-type and anchor fixers;
  - the driver that runs each callback as its own full traversal.
- **The runtime hook registry** and the template functions `render()` and
  `getRenderString()` built on it.
- **The registries of the bundle, the environment and the Latte facade.**
  - extensions are compared by identity;
  - the postprocessor fold;
  - global variables that win over template parameters;
  - the once-only engine and loader;
  - the singleton guard;
  - the `newline` filter's argument decoding.

The model's choices:

- **Node tree.** The template tree is a value (`Nodes.Node`): elements with
  attribute and content children, attributes, texts and expressions.
- **Traverser.** Latte's `NodeTraverser` is not part of this model. It is
  assumed to be a pre-order walk: the visitor sees a node first, and its
  result replaces the node or stops the walk below it
  (`DontTraverseChildren`). The walk then visits an element's attributes and
  then its content, and an attribute's name and then its value. A `fuel`
  bound on the depth makes the walk a total function.
- **State.** Classes whose fields the PHP code updates in place are Dafny
  classes with `modifies` frames:
  - `TemplateChainLoader`, `Loader`, `RuntimeHookLoader`, `Render`,
    `Environment`, `LatteBundle`;
  - the `TemplateNode` the passes rewrite;
  - the attribute array the separator fixer loops over.

  Each method is proved against a specification function, and the lemmas
  are about those functions.
- **PHP semantics.** The model writes these out explicitly:
  - arrays are association lists (`Php.Assoc`);
  - `$a + $b` is a left-biased union;
  - `$a[$k] = $v` keeps an existing key in place;
  - `??` binds tighter than `?:`;
  - under `strict_types`, a non-string returned from a `?string` method is
    a `TypeError`;
  - a method call on `null` is an `Error`.
- **Parameters.** Code from other packages is a function parameter:
  - `Normalize::path`, `normalizeKey`, `basename`;
  - `Str::trimWhitespace`, `Minify`, `Attributes::sort`;
  - `Format::newline`, `Format::backtickCodeTags`;
  - the engine's rendering.

  The file system is a set of existing paths (`fs`), or a map from path to
  content for `getContent`.
- **Two versions of some files.** The repository holds two versions of the
  optimiser, the compiler-pass base and the formatter. Both are modelled,
  and where they differ the differences are stated.
- **`Environment` and `Latte`.** `src/Environment.php` and `src/Latte.php`
  have the same registry methods, differing only in logging: `Latte`
  warns through the static `Log::warning`, `Environment` through its
  optional `$this->logger`. Logging is not modelled, so one class,
  `Environments.Environment`, models both.

## Model

| member | source | states |
|---|---|---|
| Php.UnionLookup | src/Render.php:175 | in the union a key of the left array keeps its left value; any other key has the right array's value |
| Php.PutLookup | src/LatteBundle.php:205-209 | after `$a[$k] = $v`, `$k` maps to `$v` and every other key keeps its value |
| Php.Put | src/Hook/RuntimeHookLoader.php:45-47 | assignment by key: an existing key keeps its position and the key list grows only for a new key |
| Php.ApplyAllAppend | src/Environment.php:85-92 | folding through two lists of stages is folding through the first, then the second |
| TemplateChain.PriorityKey | src/Latte/Compiler/TemplateChainLoader.php:29-31 | `true` becomes PHP_INT_MAX, an int is kept, and the default `false` becomes key 0 because `??` binds first |
| TemplateChain.WithDirectory | src/Latte/Compiler/TemplateChainLoader.php:33-39 | the path is stored under its key; every other entry survives unless it held the same path; an injective map stays injective |
| TemplateChain.DefaultAddsCollide | src/Latte/Compiler/TemplateChainLoader.php:29-39 | two adds at the default priority share key 0, and the second path replaces the first |
| TemplateChain.ReAddMoves | src/Latte/Compiler/TemplateChainLoader.php:35-39 | after an add the path is stored under the new key only |
| TemplateChain.Probe | src/Latte/Compiler/TemplateChainLoader.php:65-73 | one directory answers exactly when the name lies under it and the directory exists, or `dir/name` exists; the answer is the name or an existing `dir/name` |
| TemplateChain.SearchFindsHighest | src/Latte/Compiler/TemplateChainLoader.php:50-74 | the search over the sorted directories returns the answer of the highest-priority directory that answers |
| TemplateChain.SearchFailsIffNoneAnswers | src/Latte/Compiler/TemplateChainLoader.php:64-76 | the search finds nothing exactly when no directory answers |
| TemplateChain.SearchAnswerFrom | src/Latte/Compiler/TemplateChainLoader.php:64-74 | an answer comes from a directory with no answering directory above it |
| TemplateChain.ResolveHighestPriority | src/Latte/Compiler/TemplateChainLoader.php:58-76 | a `.latte` name not found in the project resolves to the answer of the highest-priority answering directory |
| TemplateChain.HigherPriorityWins | src/Latte/Compiler/TemplateChainLoader.php:50-74 | when the file exists in a higher-priority directory, the lower one's path is never returned |
| TemplateChain.TemplateChainLoader.Add | src/Latte/Compiler/TemplateChainLoader.php:22-40 | when locked: a warning and no change; otherwise the directory map gains the normalised path under the priority's key |
| TemplateChain.TemplateChainLoader.Load | src/Latte/Compiler/TemplateChainLoader.php:47-77 | locks the loader, even for a non-`.latte` name; keeps the map; returns a non-`.latte` name unchanged; otherwise returns the resolution, highest priority first |
| Whitespace.TrimShape | src/Loader.php:112 | PHP `trim`: the result is the input's middle, its dropped ends are trim characters, and its own ends are not |
| Whitespace.TrimIdempotent | src/Loader.php:112 | trimming twice is trimming once |
| Whitespace.CollapseSpace | src/Latte/Extension/OptimizerExtension.php:105-111 | every whitespace run becomes one plain space; the result is empty only for empty input |
| Whitespace.CollapseSpaceKeepsText | src/Latte/Extension/OptimizerExtension.php:107-110 | the non-whitespace characters are kept, in order |
| Whitespace.CollapseSpaceFixpoint | Extension/OptimizerExtension.php:89-94 | the compressor leaves a text unchanged exactly when its only whitespace is lone plain spaces |
| Whitespace.CollapseSpaceIdempotent | Extension/OptimizerExtension.php:89-94 | compressing twice is compressing once |
| Whitespace.KeepLastVertical | src/Latte/Extension/OptimizerExtension.php:97-103 | each run of vertical whitespace becomes one character, so no two vertical characters are adjacent |
| Whitespace.KeepLastVerticalRun | src/Latte/Extension/OptimizerExtension.php:99-101 | a run of vertical whitespace becomes its last character |
| Whitespace.KeepLastVerticalKeepsRest | src/Latte/Extension/OptimizerExtension.php:99-101 | all characters other than vertical whitespace are kept, in order |
| Whitespace.KeepLastVerticalFixpoint | Extension/OptimizerExtension.php:82-87 | a text is unchanged exactly when it has no two adjacent vertical whitespace characters |
| Whitespace.KeepLastVerticalIdempotent | Extension/OptimizerExtension.php:82-87 | fixing twice is fixing once |
| Whitespace.KeepLastVerticalBytes | src/Latte/Extension/OptimizerExtension.php:100 | the pattern as written, on bytes: the result is no longer, empty only for an empty text, starts with a vertical byte exactly when the text does, and has no two adjacent vertical bytes (0x85 among them) |
| Whitespace.VerticalBytesBreakUtf8 | src/Latte/Extension/OptimizerExtension.php:100 | the UTF-8 text `х\n` (D1 85 0A) becomes D1 0A, which is not UTF-8 |
| Whitespace.VerticalCharsKeepLetter | Extension/OptimizerExtension.php:84 | on characters, as intended, `х\n` is left unchanged |
| LoaderText.Protect | src/Loader.php:181-185 | no `->` followed by a word character is left; the output is no shorter than the input |
| LoaderText.RestoreProtect | src/Loader.php:181-195 | restoring after protecting gives back the input when it contains no `%%` |
| LoaderText.PlaceholderPrefixBreaksRoundTrip | src/Loader.php:183-193 | input with no placeholder text can still fail the round trip, because of the placeholder's `%` borders |
| LoaderText.TagLengthMatches | src/Loader.php:206-207 | the tag pattern `<\s*[a-zA-Z][:a-zA-Z0-9]*\s+[^>]*>` matches n characters at the start of a text exactly when TagLength gives that n and not 0; so there is at most one match at a position and TagLength finds it |
| LoaderText.InlineTagsKeepsText | src/Loader.php:204-212 | inlining tags keeps every non-whitespace character, in order |
| LoaderText.InlineTagsNoOp | src/Loader.php:204-212 | a text whose only whitespace is lone plain spaces is unchanged |
| LoaderText.InlineTagsPlainPrefix | src/Loader.php:205-209 | text without `<` in front of the rest is copied verbatim, whatever its whitespace |
| LoaderText.InlineTagsWithoutTags | src/Loader.php:205-209 | a template without `<` is unchanged, whatever its whitespace |
| LoaderText.InlineTagsAround | src/Loader.php:205-209 | plain text, then a match, then the rest: the plain text is kept, the match has its whitespace runs collapsed, and the scan resumes right after the match |
| LoaderText.InlinedTagOnOneLine | src/Loader.php:206-207 | in the output, what replaces a match has no line break and only lone plain spaces, and keeps the match's other characters in order |
| LoaderText.HandleLatteTags | src/Loader.php:219-235 | an empty tag list changes nothing |
| LoaderText.HandleTagAbsent | src/Loader.php:222-231 | a text without `tag="` is unchanged |
| LoaderText.HandleTagAttribute | src/Loader.php:222-231 | `tag="value"` at the front becomes `tag="v"` for the cleaned value v, or nothing when v is falsy; the scan resumes after the closing quote |
| LoaderPaths.NormalizePath | src/Loader.php:148-163 | the loop over segments computes the normalised path |
| LoaderPaths.NormalizedPathShape | src/Loader.php:150-162 | in the output's segments, `..` only appears as leading segments and no `.` segment is left |
| LoaderPaths.NormalizePathIdempotent | src/Loader.php:148-163 | normalising twice is normalising once |
| LoaderPaths.JoinSplit | src/Loader.php:150-162 | joining the split segments gives back the path |
| LoaderPaths.SplitJoin | src/Loader.php:150-162 | splitting joined segments that avoid the separator gives back the segments |
| LoaderPaths.ReferredName | src/Loader.php:99-107 | an absolute or scheme-prefixed name is returned unchanged |
| LoaderPaths.ReferredNameSibling | src/Loader.php:99-107 | a plain relative name resolves next to the referring file |
| LoaderPaths.UniqueIdInjective | src/Loader.php:52-54 | different names have different cache ids |
| LoaderPaths.IsExpired | src/Loader.php:92-94 | a template is never expired |
| LoaderTags.IndexUnion | src/Loader.php:252 | `$tags += $keys` keeps every existing index and adds only the other array's higher indices |
| LoaderTags.UnionTagsFirstWins | src/Loader.php:247-253 | an index holds the tag of the first extension that is long enough to reach it |
| LoaderTags.LatteTagsAsWritten | src/Loader.php:241-271 | the list begins with `n:if`, has no duplicates, and holds exactly the `n:` entries of the index union |
| LoaderTags.GetLatteTags | src/Loader.php:241-271 | the accumulating loop computes the tag list as written |
| LoaderTags.ElementTagsLoseId | src/Loader.php:252 | with the element extension's tags `n:id`, `n:class`, the list is `n:if`, `n:class` |
| LoaderTags.LatteTags | src/Loader.php:241-271 | corrected list: it begins with `n:if`, has no duplicates, and every entry starts with `n:` |
| LoaderTags.LatteTagsMembers | src/Loader.php:241-271 | corrected list: a tag is in it exactly when it is `n:if` or an `n:` tag of some extension |
| LoaderTags.ElementTagsKeepId | src/Loader.php:241-271 | with the corrected list, `n:id` and `n:class` are both handled |
| LoaderTags.Dedup | src/Loader.php:259 | `array_flip` twice keeps every entry once, with no duplicates, and keeps the first entry first |
| LoaderTags.DedupOrder | src/Loader.php:259 | the kept entries are ordered by where each first occurs in the input |
| LoaderTags.KeepAttributeTags | src/Loader.php:256 | the filter keeps the `n:` entries, each as often as in the input, in their input order, and drops every other entry |
| TemplateLoader.Loader.Compile | src/Loader.php:110-138 | the content is the trimmed source, then the inline, protect, tag, user-preprocessor, restore and minify stages in that order, unless preprocessing is off; the tag stage uses the corrected tag list (see Findings) |
| TemplateLoader.Loader.GetContent | src/Loader.php:63-81 | a missing template is a MissingTemplate error with code 404; an existing one is compiled, with the corrected tag list |
| TemplateLoader.Loader.constructor | src/Loader.php:31-42 | the loader keeps its extensions' tags and its preprocessors, with preprocessing on |
| TemplateLoader.Missing | src/Loader.php:71-77 | the error for a missing template carries code 404 |
| TemplateLoader.CompileDisabled | src/Loader.php:112-116 | with preprocessing off, compiling only trims |
| TemplateLoader.CompileOnlyInlines | src/Loader.php:119-137 | with no user preprocessors, a source whose inlined text has no operator, no `%%` and no tag attribute reaches the minifier as inlining leaves it |
| TemplateLoader.CompileUntouched | src/Loader.php:119-137 | if in addition the trimmed source has no `<` or only lone plain spaces, it reaches the minifier as trimmed |
| Nodes.TraverseTexts | Compiler/CompilerPassExtension.php:27-31 | traversing with a text-only rewrite maps it over every text |
| Nodes.MapTextsIdempotent | Compiler/CompilerPassExtension.php:27-31 | mapping an idempotent rewrite twice is mapping it once |
| Nodes.MapTextsEstablishes | Compiler/CompilerPassExtension.php:27-31 | after mapping a rewrite whose results satisfy a property, every text satisfies it |
| Nodes.TraverseKeepAll | Compiler/CompilerPassExtension.php:27-31 | a visitor that returns every node unchanged leaves the tree unchanged |
| Nodes.FindAttribute | src/Extension/ElementExtension.php:60 | `getAttribute` finds nothing exactly when no attribute has the name |
| Nodes.FindAttributeOnly | src/Extension/ElementExtension.php:60 | the only attribute with a name is the one `getAttribute` finds |
| CompilerPass.DefaultPassKeepsTemplate | Compiler/CompilerPassExtension.php:19-28 | the default `traverseNodes` is empty, so the pass leaves the tree unchanged |
| CompilerPass.ApplyPassesAppend | Compiler/CompilerPassExtension.php:28-29 | callbacks run in list order, each as one complete traversal |
| CompilerPass.ApplyPassesKeepAll | src/Compiler/CompilerPassExtension.php:22-26 | callbacks that return every node unchanged change nothing |
| CompilerPass.CompilerPassExtension.GetPasses | Compiler/CompilerPassExtension.php:23-25 | exactly one pass, keyed by the concrete class name |
| CompilerPass.TemplateNode.constructor | src/Compiler/CompilerPassExtension.php:16 | the template node holds the tree the passes rewrite |
| CompilerPass.CompilerPassExtension.TemplateNodeTraverser | src/Compiler/CompilerPassExtension.php:22-26 | the tree becomes the result of the callbacks in order, each as its own traversal |
| NodeCompiler.IsElementCases | Compiler/NodeCompilerTrait.php:19-30 | false for a node that is not an element; for an element, true with no name and, with a truthy name, true exactly when the names match |
| NodeCompiler.TextOf | Compiler/NodeCompilerTrait.php:36-38 | no node for null, otherwise a text with that content |
| NodeCompiler.AttributeNode | Compiler/NodeCompilerTrait.php:32-34 | a `"`-quoted attribute with a text name and a text value; a null value stays null |
| NodeCompiler.KeyedAttributes | Compiler/NodeCompilerTrait.php:49-54 | keying by name text gives each name one entry, holding an attribute of that name |
| NodeCompiler.KeyedHasName | Compiler/NodeCompilerTrait.php:49-54 | a name has an entry exactly when some attribute child has it, so other children are dropped |
| NodeCompiler.KeyedLastWins | Compiler/NodeCompilerTrait.php:49-54 | the entry of a duplicated name holds its last attribute |
| NodeCompiler.KeyedCount | Compiler/NodeCompilerTrait.php:49-54 | one entry per distinct name |
| NodeCompiler.SortAttributes | Compiler/NodeCompilerTrait.php:45-64 | the two loops compute the re-sorted list |
| NodeCompiler.SortedAttributesShape | Compiler/NodeCompilerTrait.php:58-63 | twice as long as the number of distinct names, alternating single spaces and attributes, with nothing after the last attribute |
| NodeCompiler.SortedAttributesFrom | Compiler/NodeCompilerTrait.php:58-63 | every attribute in the output is one of the children |
| NodeCompiler.SortedAttributesNames | Compiler/NodeCompilerTrait.php:45-64 | the output keeps exactly the children's attribute names |
| NodeCompiler.Emit | Compiler/NodeCompilerTrait.php:58-63 | a single-space text before every attribute, in the sorter's order |
| Optimizer.FixedUpTo | src/Latte/Extension/OptimizerExtension.php:66-92 | after the first i steps the children from i on are untouched and the count is unchanged |
| Optimizer.FixedUpToStable | src/Latte/Extension/OptimizerExtension.php:66-92 | later steps do not alter children that earlier steps fixed |
| Optimizer.FixSeparatorsCases | src/Latte/Extension/OptimizerExtension.php:66-92 | only texts change. A text with `\n` becomes empty when last and a space otherwise. A text with a space becomes empty after an updated space, and a space otherwise. Any other text is kept |
| Optimizer.FixSeparatorsNoNewline | src/Latte/Extension/OptimizerExtension.php:73-77 | no attribute separator keeps a line break |
| Optimizer.FixSeparatorsIdempotent | Extension/OptimizerExtension.php:57-79 | without line breaks in the separators, fixing twice is fixing once |
| Optimizer.NewlineAfterSpaceNotIdempotent | Extension/OptimizerExtension.php:62-76 | a line-break separator after a space separator becomes a second space, and a second run empties it |
| Optimizer.NodeWhitespaceFixer | src/Latte/Extension/OptimizerExtension.php:58-95 | a node that is not an element, or has no attribute children, is unchanged; an element keeps its name and content, and its attribute children have their separators fixed |
| Optimizer.FixAttributeSeparators | Extension/OptimizerExtension.php:57-79 | the in-place loop over the attribute array computes the fixed separators |
| Optimizer.FixVerticalEffect | src/Latte/Extension/OptimizerExtension.php:97-103 | when normalising or for whitespace-only text: no adjacent vertical whitespace, the other characters kept; otherwise unchanged |
| Optimizer.FixVerticalIdempotent | Extension/OptimizerExtension.php:82-87 | fixing a text twice is fixing it once |
| Optimizer.BlankIff | src/Latte/Extension/OptimizerExtension.php:99 | a text counts as whitespace exactly when every character is a trim character |
| Optimizer.TraverseNodes | src/Latte/Extension/OptimizerExtension.php:37-49 | the node fixer, the text fixer, then the compressor only when it is on, under distinct keys |
| Optimizer.TextPassesMapTexts | Extension/OptimizerExtension.php:82-94 | the text fixer and the compressor act as maps over the texts |
| Optimizer.OptimizeStages | Extension/OptimizerExtension.php:37-48 | the optimiser is the separator pass, then the text fixer map, then the compressor map when it is on |
| Optimizer.OptimizeCompacts | Extension/OptimizerExtension.php:37-48 | with compression on, no text keeps any whitespace but lone plain spaces |
| Optimizer.CompressorIdempotent | Extension/OptimizerExtension.php:89-94 | compressing a tree twice is compressing it once |
| Optimizer.TextFixerIdempotent | Extension/OptimizerExtension.php:82-87 | fixing a tree's texts twice is fixing them once |
| Optimizer.AsWrittenPassKeepsTemplate | src/Latte/Extension/OptimizerExtension.php:29-35 | the array handed over as the visitor changes no node, so the pass leaves every tree unchanged |
| Optimizer.AsWrittenPassMissesCompression | src/Latte/Extension/OptimizerExtension.php:29-35 | a tree the corrected pass compacts goes through the written pass unchanged |
| Element.TypeButton | src/Extension/ElementExtension.php:66 | the added attribute is `type="button"` |
| Element.ButtonTypeFixer | src/Extension/ElementExtension.php:54-71 | an expression stops the walk, as does a button with a truthy type, which stays unchanged. Other nodes are returned unchanged. A typeless button stays a button with its content |
| Element.ButtonTypeAdded | Element/ButtonExtension.php:44-45 | a typeless button gains exactly the name `type`, which reads `button`, and a second visit leaves it alone |
| Element.AnchorReference | src/Extension/ElementExtension.php:34-52 | an expression stops the walk; an anchor keeps its name and content; other nodes are returned unchanged |
| Element.AnchorSorted | src/Extension/ElementExtension.php:44-49 | an anchor's attributes are re-sorted: single spaces alternating with its own attributes, with the same names |
| Element.ElementPassOrder | src/Extension/ElementExtension.php:27-32 | the button fixer's traversal runs first, then the anchor fixer's |
| Element.ButtonTraverseNodes | Element/ButtonExtension.php:25-29 | the only pass is the button fixer |
| Element.ButtonsAbsentKeep | Element/ButtonExtension.php:31-49 | a tree without buttons goes through the button pass unchanged |
| Element.GetTags | src/Extension/ElementExtension.php:20-25 | the extension's tags include `n:id` and `n:class`, all distinct and `n:`-prefixed |
| Hooks.GetHook | src/Hook/RuntimeHookLoader.php:25-43 | returns null exactly for a missing hook or a used unique hook, with no change; otherwise adds one to the counter. With returnObject, a non-string is a TypeError; otherwise the result is the string form |
| Hooks.AddHook | src/Hook/RuntimeHookLoader.php:45-47 | the value replaces any earlier one for the name; the counters are unchanged |
| Hooks.UniqueOnce | src/Hook/RuntimeHookLoader.php:28-33 | a second unique call returns null and changes nothing |
| Hooks.RepeatedGets | src/Hook/RuntimeHookLoader.php:28-33 | n non-unique calls of a registered hook raise its counter by n and keep the hooks |
| Hooks.ReplaceKeepsRendered | src/Hook/RuntimeHookLoader.php:45-47 | replacing a hook does not reset its counter, so a used unique hook stays used |
| Hooks.AddThenGet | src/Hook/RuntimeHookLoader.php:33-42 | after addHook, a get renders the new value, counted once |
| Hooks.RuntimeHookLoader.constructor | src/Hook/RuntimeHookLoader.php:12-16 | a new loader has no hooks and no render counts |
| Hooks.RuntimeHookLoader.Get | src/Hook/RuntimeHookLoader.php:25-43 | the result and new state are those of the hook specification |
| Hooks.RuntimeHookLoader.AddHookValue | src/Hook/RuntimeHookLoader.php:45-47 | the state becomes that of addHook |
| Hooks.RuntimeHookLoader.GetHooks | src/Hook/RuntimeHookLoader.php:49-51 | the registered hooks, unchanged |
| Hooks.RenderHook | src/Hook/RenderHookExtension.php:25-32 | the fallback when the loader gives null, otherwise the loader's string; the unique flag is passed on |
| Hooks.EchoText | src/Hook/RenderHookExtension.php:21-23 | echo prints the string, and nothing for null |
| Hooks.RenderTwice | src/Hook/RenderHookExtension.php:21-32 | two unique render() calls print the hook once, then the fallback |
| Hooks.GetFunctions | src/Hook/RenderHookExtension.php:14-19 | the functions `render` and `getRenderString` |
| Hooks.RenderHookExtension.GetRuntimeRenderHookString | src/Hook/RenderHookExtension.php:25-32 | the result and the loader's new state follow the fallback specification |
| Hooks.RenderHookExtension.EchoRuntimeRenderHook | src/Hook/RenderHookExtension.php:21-23 | prints what getRuntimeRenderHook returns |
| Formatter.GetCallableArguments | src/Extension/FormatterExtension.php:45-71 | no arguments give null and no attributes. More than one is BadMethodCall. A positional argument is the condition. A named array argument gives its name and the array. Any other named value is BadMethodCall |
| Formatter.CallableArgumentsOk | Extension/LatteExtensionTrait.php:13-40 | decoding succeeds exactly for at most one argument that, when named, carries an array |
| Formatter.Mode | src/Extension/FormatterExtension.php:27-31 | `s` is Span, `p` is Paragraph, anything else is Auto |
| Formatter.Newline | Extension/FormatterExtension.php:22-30 | a bad argument shape is an error before any formatting; otherwise the formatter gets the decoded mode and attributes |
| Formatter.NewlineCalls | src/Extension/FormatterExtension.php:24-33 | the filter's call forms, each with its mode or its error |
| Formatter.GetFilters | src/Extension/FormatterExtension.php:16-22 | the filters `newline` and `formatInline` |
| Formatter.FormatInline | Extension/FormatterExtension.php:32-34 | the backtick formatter's output |
| Rendering.SearchFirstProbe | src/Render.php:143-155 | directories are scanned in array order: the first that answers decides |
| Rendering.SearchNone | src/Render.php:143-158 | the search finds nothing exactly when no directory answers |
| Rendering.LoadPath | src/Render.php:128-159 | a non-`.latte` name is unchanged; a normalised name that exists in the project is returned |
| Rendering.LoadPathFound | src/Render.php:136-158 | a `.latte` name resolves either to its normalised self or to an existing file in one of the directories |
| Rendering.LoadPathFallback | src/Render.php:158 | when nothing answers, the normalised name is returned |
| Rendering.Render.constructor | src/Render.php:29-40 | the Render keeps the engine's loader, the project directory, the template directories, the globals and the postprocessors it is given |
| Rendering.Render.Load | src/Render.php:128-159 | the loop with early returns computes the resolution |
| Rendering.Global | src/Render.php:170-176 | an object is passed on unchanged; an array stays an array |
| Rendering.GlobalsWin | src/Render.php:170-176 | in the merged array a global variable wins over a parameter of the same name; other parameters are kept |
| Rendering.FinishedStages | src/Render.php:108-115 | with postprocessing on, the postprocessors run in order and then the minifier; with it off, only the minifier |
| Rendering.FinishedAppend | src/Render.php:108-112 | postprocessors added in two rounds run as one list |
| Rendering.Render.RenderToString | src/Render.php:88-120 | sets the loader's flag if the loader is a Loader; the output is the engine's rendering of the resolved name with the merged parameters, postprocessed and minified |
| Rendering.RenderAsWritten | src/Render.php:96 | without a stopwatch, rendering fails on null |
| Rendering.DefaultRenderFails | src/Render.php:96 | a Render built with the default null stopwatch can render nothing |
| Environments.AddExtensionsKeeps | src/Environment.php:172-185 | the existing extensions stay in front, in order, and the result holds exactly the old and added ones |
| Environments.AddExtensionsDistinct | src/Environment.php:172-185 | no instance is registered twice |
| Environments.AddExtensionsPresent | src/Latte.php:161-176 | adding instances already present changes nothing |
| Environments.AddExtensionsIdempotent | src/Latte.php:161-176 | adding the same extensions twice is adding them once |
| Environments.LoaderStep | src/Environment.php:131-150 | unset gives a FileLoader. A loader is returned as it is. A Closure is called once and replaced by its result, and a failing Closure is a TypeError and stays |
| Environments.LoaderOnce | src/Latte.php:123-139 | once resolved, the loader is returned without another call |
| Environments.LoaderFails | src/Latte.php:123-139 | the loader fails exactly for a failing Closure, and fails again on a retry |
| Environments.TemplateOutput | src/Environment.php:78-82 | without postprocessing, or without postprocessors, the raw render |
| Environments.TemplateOutputAppend | src/Latte.php:178-184 | postprocessors appended later run after the earlier ones |
| Environments.NewEnvironment | src/Environment.php:253-261 | a second construction is LogicException; the first stores a fresh environment |
| Environments.Environment.constructor | src/Environment.php:36-48 | empty registries, again for both classes; the template loader belongs to the project directory |
| Environments.Environment.SetLoader | src/Environment.php:152-156 | the loader slot holds exactly what was given |
| Environments.Engine.SetLoader | src/Environment.php:116 | the engine holds the resolved loader |
| Environments.Environment.Loader | src/Environment.php:131-150 | the loader slot and result follow the loader specification |
| Environments.Environment.Engine | src/Environment.php:94-129 | the engine is created at most once. It is stored before the loader is resolved, so a failing loader leaves it without one and reports a TypeError |
| Environments.Environment.AddGlobalVariable | src/Environment.php:158-163 | the variable is stored by key |
| Environments.Environment.AddExtension | src/Environment.php:172-185 | instances already present are skipped with a warning each; the others are appended in order |
| Environments.Environment.AddPostprocessor | src/Environment.php:187-193 | postprocessors are appended in call order |
| Environments.Environment.PostProcessing | src/Environment.php:85-92 | the string is folded through the postprocessors in order |
| Environments.Environment.AddTemplateDirectory | src/Environment.php:206-210 | the template loader's add, with its lock warning |
| Environments.Environment.TemplateToString | src/Environment.php:65-83 | fails exactly when a new engine's loader fails. Otherwise the output is the render of the resolved name with the merged parameters, postprocessed only when the flag is set; the loader is then locked. On failure the loader's directories and lock are as before |
| Bundle.Values | src/Render.php:143 | what a foreach over a keyed array visits: its values, one per entry, in order |
| Bundle.LastParser | src/LatteBundle.php:215-220 | a parser of the class with no later parser of that class in the list, or none exactly when no parser has the class |
| Bundle.AddParsersLookup | src/LatteBundle.php:215-220 | a class maps to its last added parser; other classes keep their earlier entry |
| Bundle.DirectoryKey | src/LatteBundle.php:245-254 | the normalised namespace, or the normalised base name when there is none |
| Bundle.AddDirectory | src/LatteBundle.php:245-254 | the normalised path is stored under the key, overwriting; other keys are unchanged |
| Bundle.AsArray | src/LatteBundle.php:263-267 | a single path becomes the array `[0 => path]` |
| Bundle.NamespaceOf | src/LatteBundle.php:263-267 | an integer key means no namespace, and a string key is the namespace |
| Bundle.SetOneDirectory | src/LatteBundle.php:263-267 | a single path is stored under its base name |
| Bundle.SameKeyOverwrites | src/LatteBundle.php:245-267 | two distinct namespaces that normalise to the same key: the second directory wins and the key list is the one the first made |
| Bundle.SetTwo | src/LatteBundle.php:263-267 | setting two directories is two adds in order |
| Bundle.LatteBundle.constructor | src/LatteBundle.php:48-70 | the Core and then the Formatter extension, as distinct new instances; nothing else is registered |
| Bundle.LatteBundle.AddExtension | src/LatteBundle.php:189-199 | only instances not already present are appended, in order |
| Bundle.LatteBundle.AddGlobalVariable | src/LatteBundle.php:205-209 | the variable is stored by key |
| Bundle.LatteBundle.AddPreprocessor | src/LatteBundle.php:215-220 | parsers are keyed by class name, with later ones replacing earlier ones |
| Bundle.LatteBundle.AddPostprocessor | src/LatteBundle.php:222-227 | writes into the preprocessors; the postprocessors are unchanged |
| Bundle.LatteBundle.AddTemplateDirectory | src/LatteBundle.php:245-254 | the directory is stored under its key |
| Bundle.LatteBundle.SetTemplateDirectories | src/LatteBundle.php:263-267 | each entry is added in order, with an integer key meaning no namespace |
| Bundle.LatteBundle.RenderEngine | src/LatteBundle.php:114-122 | built at most once; the Render gets the directories, the globals and no postprocessors |
| Bundle.BundleSkipsPostprocessing | src/LatteBundle.php:114-122 | so the bundle's rendering only minifies after the engine |

## Left out

- Latte's `NodeTraverser` is not part of this model. Every pass assumes the
  pre-order walk described above.
- The walk is bounded by `fuel` levels. A tree deeper than the bound is
  modelled only down to it.
- Node identity and aliasing are not modelled, because nodes are values.
  "The same node object" becomes "an equal node".
- PHP arrays with integer attribute names are not modelled.
  `Nodes.NameText` yields the text of a name node, and `sortAttributes`'
  keys are those strings.
- The model works on characters; the source's patterns have no `u` flag, so
  PCRE reads the UTF-8 text as bytes. For `\s` and `\w` this changes
  nothing, since their classes are ASCII (`\w` is `[A-Za-z0-9_]`, `\s` is
  space, `\t`, `\n`, `\x0B`, `\f`, `\r`) and the bytes of a multi-byte
  character are all 0x80 or above. `\v` however also matches the byte 0x85,
  the last byte of letters such as `Å` (C3 85), `ą` (C4 85) and `х` (D1 85):
  with whitespace normalisation on, `х\n` (D1 85 0A) becomes D1 0A, broken
  UTF-8, while `Optimizer.FixVerticalEffect` keeps it. This case is listed
  under "## Findings", where `Whitespace.KeepLastVerticalBytes` models the
  byte-level pattern. The character-level scanner does not count NEL
  (U+0085) as vertical, as a `u` pattern would.
- Regular-expression metacharacters inside tag names are not escaped in
  `handleLatteTags`; the model matches tags literally.
- `Cache::memoize` is not modelled: `getLatteTags` and the hook's callable
  are computed afresh. It would change nothing for a pure callable.
- `Hooks.Cast`: a callable hook is its output string. A plain string that
  names a function (`is_callable`) is not called.
- TemplateLoader.Loader.Compile: the tag stage uses the corrected tag list
  `LoaderTags.LatteTags`, not the index union the code computes
  (`LoaderTags.LatteTagsAsWritten`, see Findings); the same holds for
  `GetContent` and `HandleTags`.
- Rendering.Render.RenderToString: the engine is a parameter, so the effect
  of the `parsePreprocessors` flag on the compiled output, and the
  loader's content after the engine compiles through it, are not modelled.
- `Hooks.RenderHook`: the PHP default `unique = true` is not a default
  here; callers pass the flag.
- Engine start-up is I/O and calls into Latte, and is not modelled: engine
  creation with `setTempDirectory`, `setAutoRefresh`, `setLocale` and
  `mkdir`. What is kept is the order of storing the engine and resolving
  the loader.
- `LatteBundle::startEngine` is left out, including the `Env::isDebug`
  check, and so are `getCustomLoader` and `LatteNodeTagCache`, which is not
  part of this model.
- A Closure loader that returns another Closure is not modelled: a call
  either returns a loader or fails.
- `Render`'s `SingletonClass` instantiation check is not modelled;
  `SingletonClass` is not part of this model.
- The Stopwatch, logging and `dump()` output are side channels and are not
  modelled; only the null stopwatch's failure is kept (see Findings).
- The code-generation nodes are not modelled: CacheNode, ClassNode, IdNode
  and InlineStringableNode emit PHP source text and depend on Latte's
  parser.
- These thin wrappers and tables are not modelled: src/Runtime/Cache.php,
  src/Extension/CacheExtension.php, both CoreExtension files and
  Extension/RenderExtension.php.
- src/Extension/RenderHookExtension.php is not modelled. It depends on a
  hook loader class that is not part of this model, and it repeats
  src/Hook/RenderHookExtension.php.
- These files declare no logic: Compiler/TemplateParser.php,
  ComponentParser.php, Compiler/MissingTemplateException.php,
  src/Compiler/PostProcessorInterface.php and the tag table in
  Extension/ElementExtension.php.
- The static `template()` and `render()` accessors are not modelled. They
  read an uninitialised typed static property, which is PHP runtime
  behaviour.
- Cache clearing and pruning are file-system work and are not modelled:
  `pruneTemplateCache`, `clearTemplateCache`, `clearCache`. The same goes
  for `__get`.
- `Formatter.FormatInline` only delegates to `Format::backtickCodeTags`,
  which lives in another package, so nothing more can be stated about it.
- Functions from other packages are parameters with no properties assumed:
  - `Format::newline`, `Minify` (both variants), `normalizeKey`,
    `Normalize::path`, `basename`, `Str::trimWhitespace`;
  - `Attributes::sort`, except that lemmas needing it assume it permutes
    its input;
  - the engine's rendering, as a function of name, parameters and block.
- The file system is a set of existing paths, or a map from path to
  content; reading it is not modelled as I/O.

## Findings

| source | as written | input that shows it | evidently intended | confidence | as-written member | corrected member |
|---|---|---|---|---|---|---|
| src/Loader.php:252 | `$tags += array_keys( $extension->getTags() )` is PHP's array union of two lists by index, so each extension's tag names at indices already taken are dropped | one extension with tags `['n:id', 'n:class']`: the list becomes `n:if`, `n:class` and `n:id` is never normalised | every extension's `n:` tags join the list (a merge) | high; not executed | LoaderTags.ElementTagsLoseId | LoaderTags.ElementTagsKeepId |
| src/Latte/Extension/OptimizerExtension.php:29-35 | `getPasses` hands the callable `[$this, 'traverseNodes']` to the traverser as its visitor; each visit returns the array of fixers, which the traverser ignores, so no fixer is ever called | the template `a  b` with compression on comes out unchanged | each entry of `traverseNodes()` runs as its own traversal, as in Extension/OptimizerExtension.php | medium; not executed; depends on the traverser ignoring a visitor result that is not a node | Optimizer.AsWrittenPassMissesCompression | Optimizer.OptimizeCompacts |
| src/Latte/Extension/OptimizerExtension.php:100 | `preg_replace( '/(\v)+/', '$1', … )` has no `u` flag, so it runs on bytes, and `\v` matches the byte 0x85, the continuation byte of many UTF-8 letters; the same line is at Extension/OptimizerExtension.php:84 | a text node `х\n` (bytes D1 85 0A) under whitespace normalisation becomes D1 0A | runs of vertical whitespace characters are collapsed, and every other character is kept (the `u` flag); `Whitespace.VerticalCharsKeepLetter` shows `х\n` unchanged | medium; not executed; depends on PCRE's non-UTF `\v` matching 0x85 | Whitespace.VerticalBytesBreakUtf8 | Whitespace.KeepLastVerticalKeepsRest |
| src/Render.php:96 | `renderToString` calls a method on the stopwatch, whose constructor default is null | any template rendered through `new Render(...)` without a stopwatch | the stopwatch calls are guarded, or the stopwatch is required | medium; not executed; the bundle always passes one | Rendering.DefaultRenderFails | Rendering.Render.RenderToString |
