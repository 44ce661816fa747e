# microdoc in Dafny

microdoc turns the docstrings of Python files into Markdown in two stages. The extractor
(`py2doc`) walks the syntax tree of each file and records every module, class and function
as a node with a type, a name, a location, a text and its children. The formatter
(`doc2md`) renders that tree as Markdown: one header per node that has text, the text
itself, and then a block of link-reference definitions so that names can be linked. The
repository ships two generations of both tools:

- the current package `microdoc/`, where a node's text is a plain string;
- the legacy top-level scripts `py2doc.py` and `doc2md.py`, where a node's text is a list of
  `[tag, text]` chunks and doctest examples become `"python"` code chunks.

This model covers both generations, together with the `anchor` slug function of the HTML
converter `md2html.py`.

The modules follow the program:

- `Results`, `Text`: the Python values and `str` methods the tools use, among them
  `index`, `rstrip`, `replace` and `lower`.
- `DocTree`: the JSON node tree, generic in the element type of the text. It has two
  traversals: the full pre-order, used by the reference collectors, and the rendered
  pre-order, which a node without text cuts short.
- `RefTable`: a Python `dict` modelled as an ordered association list.
- `Escaping`, `Doc2Md`: the current formatter.
- `Ast`, `Py2Doc`: the current extractor.
- `Chunks`, `LegacyDoc2Md`, `LegacyPy2Doc`: the legacy chunk lists, formatter and extractor.
- `Md2Html`, `AnchorAgreement`: the slug function, and when it agrees with the destinations
  the current reference collector builds.

Generators are modelled as the sequence of strings they yield.

Some values come from code outside the model and are taken as inputs instead:

- The syntax tree. Each `Ast.Decl` already carries what `ast.get_docstring` and
  `ast.unparse` return for it.
- The doctest parser, a function `LegacyPy2Doc.Parser`.
- The URL template's `format` call, a function `Doc2Md.Filler`.
- `Path.stem` and `Path(...).as_posix()`, the two functions of `Py2Doc.PathLib`. `as_posix` stands for the normalised path the source stores, which drops `.` components and repeated or trailing slashes.

## Model

| member | source | states |
|---|---|---|
| Text.Find | microdoc/py2doc.py:71-72 | `str.index` returns the first position at or after the start that holds the character, and it finds nothing exactly when no such position exists |
| Text.RStrip | microdoc/py2doc.py:73 | `rstrip` keeps a prefix of the string that does not end in white space, and everything it removes is white space |
| Text.Lower | microdoc/doc2md.py:75 | `lower` keeps the length, moves each capital letter to its small letter (32 code points up) and keeps every other character, so the result holds no capital letter |
| Text.LowerFixes | microdoc/doc2md.py:75 | a string is its own lower case exactly when it has no capital letter, so lowering twice is lowering once |
| Text.ReplaceCharIsReplace | microdoc/doc2md.py:75 | replacing `.` with `-` is a one-for-one map of positions |
| Escaping.EscapeMarkdown | microdoc/doc2md.py:57-59 | the three chained replacements add exactly one backslash per `_`, `*` or backquote; unescaping recovers the name; the name is unchanged exactly when it holds none of the three characters |
| Escaping.ChainedIsSinglePass | microdoc/doc2md.py:57-59 | the later replacements never act on backslashes the earlier ones inserted, so the chain equals one left-to-right insertion pass |
| Escaping.UnescapeEscaped | microdoc/doc2md.py:57-59 | round trip: escaping a name and then unescaping it gives the name back |
| Escaping.EscapedIdentity | microdoc/doc2md.py:57-59 | escaping leaves a name unchanged if and only if the name holds no special character |
| Escaping.EscapedHead | microdoc/doc2md.py:57-59 | an escaped name never starts with a special character |
| Escaping.EscapedConcat | microdoc/doc2md.py:28 | escaping distributes over concatenation |
| DocTree.AllSize | microdoc/doc2md.py:72-79 | the full traversal meets each node of the subtree exactly once, starting with the root |
| DocTree.VisibleInAll | microdoc/doc2md.py:22-37 | every node that is rendered has text and belongs to the full traversal |
| DocTree.VisibleIsAllIffTexts | microdoc/doc2md.py:25-26 | the rendered nodes are all the nodes if and only if every node of the subtree has text |
| DocTree.VisibleLengthEq | microdoc/doc2md.py:25-26 | a rendered traversal as long as the full one is the full one |
| RefTable.PutKeys | microdoc/doc2md.py:74-77 | `refs[id] = v` keeps the position of an existing key and appends a new key at the end |
| RefTable.PutLookup | microdoc/doc2md.py:74-77 | after `refs[id] = v` the key maps to `v` and every other key keeps its value |
| RefTable.PutDistinct | microdoc/doc2md.py:74-77 | a table with distinct keys keeps distinct keys after an assignment |
| RefTable.PutAllSemantics | microdoc/doc2md.py:74-77 | assigning a list of entries into an empty dict gives each key once, at its first occurrence, bound to the last value assigned to it |
| RefTable.PutAllDistinct | microdoc/doc2md.py:74-77 | with no repeated key, the dict holds exactly the assigned entries in their order |
| RefTable.PutAllConcat | microdoc/doc2md.py:78-83 | assigning two lists one after the other is assigning their concatenation |
| RefTable.FirstOccurrencesDistinct | microdoc/doc2md.py:74-77 | the keys of the dict are pairwise distinct |
| Doc2Md.Hashes | microdoc/doc2md.py:27 | `'#' * level` holds exactly `level` hashes, and none when the level is below one |
| Doc2Md.FormatRefs | microdoc/doc2md.py:39-48 | the marker line comes first, then for each entry in dict order the plain definition followed by the backquoted one, with the same destination and title |
| Doc2Md.RefAnchor | microdoc/doc2md.py:75 | the stored destination; its contract is `Doc2Md.RefAnchorSpec` and `Doc2Md.RefAnchorExample` |
| Doc2Md.RefAnchorSpec | microdoc/doc2md.py:75 | the destination is the lower-cased type and the lower-cased id joined by a dash, with every dot of either turned into a dash; it holds no dot and no capital letter |
| Doc2Md.RefAnchorExample | microdoc/doc2md.py:75 | a method `C.f` of module `M` gets the destination `function-m-c-f` |
| Doc2Md.RefOf | microdoc/doc2md.py:74-77 | the entry under a dotted id: the destination is one character longer than type and id together, and the title is the type, a space and the node's short name, not the dotted id |
| Doc2Md.FormatNodeIsBlocks | microdoc/doc2md.py:22-37 | rendering a subtree yields one header, text and separator block per rendered node in pre-order. A node without text hides its whole subtree. Each header shows the level and the escaped dotted id |
| Doc2Md.FormatNodesIsBlocks | microdoc/doc2md.py:36-37 | the same for a list of sibling subtrees |
| Doc2Md.HiddenSubtree | microdoc/doc2md.py:25-26 | a node without text renders nothing. A subtree renders three pieces per node if and only if every one of its nodes has text |
| Doc2Md.CollectIsPutAll | microdoc/doc2md.py:72-79 | `collect` assigns one entry per node of the full pre-order traversal, with or without text |
| Doc2Md.CollectRefsSemantics | microdoc/doc2md.py:62-84 | every dotted id in the tree is a key of the reference dict, and each appears once. Each key maps to the anchor and title of the last node with that id |
| Doc2Md.FormatTop | microdoc/doc2md.py:50-52 | the top-level loop; its contract is `Doc2Md.FormatTopSingle` with `Doc2Md.FormatTopConcat` |
| Doc2Md.FormatTopSingle | microdoc/doc2md.py:50-52 | one top-level node yields the blocks of its rendered subtree and then one line break, even when it renders nothing else |
| Doc2Md.FormatTopConcat | microdoc/doc2md.py:50-52 | the loop handles the top-level nodes one after another and independently, so together with `FormatTopSingle` the whole output is fixed |
| Doc2Md.FormatTopIsBlocks | microdoc/doc2md.py:50-52 | the top-level loop yields three pieces per rendered node plus one line break per top-level node |
| Doc2Md.Format | microdoc/doc2md.py:19-54 | `format`; its contract is `Doc2Md.FormatLength` with `Doc2Md.FormatTopSingle`, `Doc2Md.FormatTopConcat`, `Doc2Md.FormatRefs` and `Doc2Md.CollectRefsSemantics` |
| Doc2Md.FormatNode | microdoc/doc2md.py:22-37 | `format_node`; its contract is `Doc2Md.FormatNodeIsBlocks` and `Doc2Md.HiddenSubtree` |
| Doc2Md.HeaderLine | microdoc/doc2md.py:27-33 | the header line; its contract is `Doc2Md.HeaderLineShape` |
| Doc2Md.HeaderLineShape | microdoc/doc2md.py:27-33 | the line starts with the level's hashes, a space and the type, and ends with a line break. Without a URL template the id follows after one space and closes the line. With one, the id follows `" ["` as the text of a link |
| Doc2Md.CollectRefs | microdoc/doc2md.py:62-84 | `collect_refs`; its contract is `Doc2Md.CollectRefsSemantics` |
| Doc2Md.FormatLength | microdoc/doc2md.py:19-54 | the whole output holds three pieces per rendered node, one line break per top-level node, the marker, and two definitions per distinct id. The marker comes right after the tree |
| Doc2Md.DottedEscaped | microdoc/doc2md.py:28 | the dotted id built from escaped names equals the escaped dotted id |
| Doc2Md.HeaderIdMatchesKey | microdoc/doc2md.py:28 | along a path of names without special characters, the id shown in a header equals the raw reference key |
| Ast.KindName | microdoc/py2doc.py:24-29 | both function kinds map to `"Function"`, a module to `"Module"` and a class to `"Class"` |
| Ast.Members | microdoc/py2doc.py:46-48 | the children are exactly the body statements of a documented kind, in order |
| Ast.MembersConcat | microdoc/py2doc.py:46-48 | filtering the body distributes over concatenation |
| Py2Doc.ComposeDefinition | microdoc/py2doc.py:59-73 | `_compose_definition`; its contract is `Py2Doc.ComposeDefinitionSpec` |
| Py2Doc.ComposeDefinitionSpec | microdoc/py2doc.py:59-73 | it succeeds if and only if some `:` follows the first `)`. The result is the source up to the first such colon, then `" ..."`. Otherwise the error names the missing character |
| Py2Doc.ComposeDefinitionCut | microdoc/py2doc.py:59-73 | the signature ends at the first colon after the first `)`, so parameter annotations do not cut it short |
| Py2Doc.ComposeDefinitionPlain | microdoc/py2doc.py:63-64 | the documented example of a plain function |
| Py2Doc.ComposeDefinitionAsync | microdoc/py2doc.py:65-66 | the documented example of a coroutine |
| Py2Doc.ComposeDefinitionAnnotated | microdoc/py2doc.py:67-68 | the documented example with annotations |
| Py2Doc.NodeText | microdoc/py2doc.py:39-44 | a missing docstring stays missing. A class or module keeps its docstring. A function's docstring follows its fenced signature, and it fails exactly when the signature cannot be found |
| Py2Doc.ProcessNode | microdoc/py2doc.py:32-56 | it succeeds if and only if no documented function with a docstring in the subtree lacks a signature. On success the node carries the type name, name and text of the declaration, the path and its line (1 by default). The whole subtree is pinned by the reference predicate `Built`: at every depth a node carries its declaration's type name, name, text, the path and the line, and as children the nodes of the documented members, in order |
| Py2Doc.ProcessBody | microdoc/py2doc.py:46-48 | the comprehension fails exactly when one of the documented members fails. Otherwise it holds, in order, one node per documented member, each with its whole subtree as `Built` describes it |
| Py2Doc.SplitInput | microdoc/py2doc.py:102-108 | an argument with a colon splits at its first colon, and the two parts joined by a colon give the argument back. Without a colon, the path is the whole argument |
| Py2Doc.SplitInputRoundTrip | microdoc/py2doc.py:103-104 | round trip: joining a colon-free path and a name with a colon, then splitting, gives both back |
| Py2Doc.ProcessInputs | microdoc/py2doc.py:102-112 | the loop of `main`; its contract is `Py2Doc.ProcessInputsCons`, `Py2Doc.ProcessInputsOk` and `Py2Doc.ProcessInputsNodes` |
| Py2Doc.ProcessInputsCons | microdoc/py2doc.py:102-112 | one turn of the loop puts the first input's node, renamed after the argument, in front of the nodes of the other inputs, and fails when either fails |
| Py2Doc.ProcessInputsOk | microdoc/py2doc.py:102-112 | the loop succeeds exactly when every input's tree is well formed |
| Py2Doc.ProcessInputsNodes | microdoc/py2doc.py:102-112 | when every input is well formed, the loop succeeds and gives one module node per input, in order. Each node is named after the argument's name or else the stem, sits at the argument's path as `as_posix` prints it, with the module's line, carries the module's text, and has as children one node per documented member of the module, each with its whole subtree as `Built` describes it |
| Py2Doc.BuildDocument | microdoc/py2doc.py:96-112 | the document carries the version and one module node per input, each with its full subtree as above, and it exists exactly when every input is well formed |
| Chunks.Coalesce | py2doc.py:56-66 | the coalescing pass as intended; its contract is `Chunks.CoalesceSpec` with `Chunks.CoalesceSplit` |
| Chunks.CoalesceSpec | py2doc.py:56-66 | neighbouring chunks with the same tag are merged. No two neighbours of the result share a tag. The joined text is unchanged. The tag sequence is the input's with repeats cut down, and the ends keep their tags. The result is a single chunk exactly when all tags are equal |
| Chunks.PushSpec | py2doc.py:58-63 | one loop step either extends the last run or starts a new one, and the joined text grows by the chunk's text |
| Chunks.TagsAt | py2doc.py:59 | the tag sequence the coalescing contracts speak of holds, at each position, the tag (`chunk[0]`) of the chunk there |
| Chunks.PushFront | py2doc.py:58-63 | a loop step leaves every chunk before the accumulator's last one unchanged; only the run in progress grows |
| Chunks.CoalesceSplit | py2doc.py:56-66 | runs never cross a change of tag: a list cut where the tag changes coalesces part by part. With the single-chunk clause of `CoalesceSpec`, each output chunk holds exactly the joined text of its own run |
| Chunks.CoalesceFixesDistinctRuns | py2doc.py:56-66 | a list whose neighbours already differ in tag is left as it is |
| Chunks.CoalesceIdempotent | py2doc.py:56-66 | coalescing twice is coalescing once |
| LegacyPy2Doc.UnpromptInverts | py2doc.py:47 | the continuation prompts inserted after the line breaks can be removed again to give the source back |
| LegacyPy2Doc.EveryLinePrompted | py2doc.py:47 | every line break of the restored source is followed by `... ` |
| LegacyPy2Doc.PromptedUnique | py2doc.py:47 | a text in which every line break is followed by `... ` is the restored form of its unprompted text, so the restored source is the only such text that unprompts to the source |
| LegacyPy2Doc.ExampleChunk | py2doc.py:46-48 | the chunk of one doctest example; its contract is `LegacyPy2Doc.ExampleRoundTrip` |
| LegacyPy2Doc.ExampleRoundTrip | py2doc.py:46-48 | an example chunk splits back into `>>> `, the right-stripped source, a line break and the expected output. The middle part has `... ` after every line break and unprompts to the right-stripped source, which by `LegacyPy2Doc.PromptedUnique` fixes it |
| LegacyPy2Doc.ChunksOf | py2doc.py:42-50 | the first loop over the parsed parts; its contract is `LegacyPy2Doc.ChunksOfConcat`, `LegacyPy2Doc.ChunksOfProse` and `LegacyPy2Doc.ChunksOfExample`, with `LegacyPy2Doc.ChunksOfShape` and `LegacyPy2Doc.ChunksOfTexts` |
| LegacyPy2Doc.ChunksOfShape | py2doc.py:42-50 | there is one chunk per part except the empty prose strings. There are none exactly when every part is empty prose. Every chunk is python code or non-empty prose |
| LegacyPy2Doc.ChunksOfTexts | py2doc.py:42-50 | the joined text of the chunks is the text of all parts, in order |
| LegacyPy2Doc.ChunksOfConcat | py2doc.py:42-50 | the loop takes the parts one at a time: the chunks of two joined part lists are the chunks of the first, then those of the second |
| LegacyPy2Doc.ChunksOfProse | py2doc.py:44-50 | a prose part becomes one untagged chunk with its text unchanged; the empty string becomes none |
| LegacyPy2Doc.ChunksOfExample | py2doc.py:46-48 | an example becomes exactly one chunk, tagged `"python"`, holding the prompted source, a line break and the expected output |
| LegacyPy2Doc.CoalesceLoop | py2doc.py:56-63 | after the loop, the finished runs followed by the run in progress are the coalesced list |
| LegacyPy2Doc.CoalesceAsWritten | py2doc.py:51-66 | the pass as written fails exactly on an empty list (`No chunks`) and on two or more chunks that all share one tag (an index into an empty list). Otherwise it returns the coalesced list |
| LegacyPy2Doc.ExamplesOnlyDocstring | py2doc.py:42-66 | a docstring of two doctest examples and nothing else gives two `"python"` chunks, which the pass as written rejects and the intended pass merges into one |
| LegacyPy2Doc.LegacySignature | py2doc.py:68-73 | the legacy signature; its contract is `LegacyPy2Doc.LegacySignatureSpec` |
| LegacyPy2Doc.LegacySignatureSpec | py2doc.py:69-72 | it succeeds if and only if the source has a colon. It keeps the source up to its first colon and appends `" ...\n"` |
| LegacyPy2Doc.LegacySignatureCut | py2doc.py:69-72 | the signature ends at the first colon, wherever it is |
| LegacyPy2Doc.LegacySignatureAgrees | py2doc.py:68-73 | when no colon precedes the first `)`, the legacy signature is the current one followed by a line break |
| LegacyPy2Doc.LegacySignatureAnnotated | py2doc.py:69-72 | an annotated parameter cuts the legacy signature short at the annotation's colon |
| LegacyPy2Doc.CurrentSignatureAnnotated | microdoc/py2doc.py:59-73 | the current extractor keeps the whole signature of that function |
| LegacyPy2Doc.NodeText | py2doc.py:39-73 | it fails exactly when a docstring yields no chunk or a function with a docstring has no colon. A missing docstring stays missing. A function's text starts with its signature chunk. The docstring chunks are the coalesced chunks of the parsed parts, so they have distinct neighbouring tags and the joined text of the parts |
| LegacyPy2Doc.ProcessNode | py2doc.py:29-85 | it succeeds if and only if every documented node of the subtree has a valid text. On success the node mirrors the declaration, sits at the path and its line, and the whole subtree is pinned by the reference predicate `Built`, as in the current extractor |
| LegacyPy2Doc.ProcessBody | py2doc.py:75-77 | the comprehension fails exactly when one of the documented members fails. Otherwise it holds, in order, one node per documented member, each with its whole subtree as `Built` describes it |
| LegacyDoc2Md.RenderChunk | doc2md.py:32-36 | a chunk with a non-empty tag becomes a fence: three backquotes, the tag, a line break, the text, then closing backquotes. Any other chunk is copied verbatim |
| LegacyDoc2Md.RenderChunksConcat | doc2md.py:32-36 | the chunks render independently, so the pieces of a joined list are the pieces of its parts in order |
| LegacyDoc2Md.RefOf | doc2md.py:54 | the destination is the lower-cased type, a dash and the lower-cased short name; the title is the type, a space and the short name |
| LegacyDoc2Md.RefLines | doc2md.py:23-25 | for each entry in dict order, the backquoted definition comes first and then the plain one |
| LegacyDoc2Md.FormatNode | doc2md.py:28-39 | `_format`; its contract is `LegacyDoc2Md.FormatNodeIsBlocks` and `LegacyDoc2Md.HiddenSubtree` |
| LegacyDoc2Md.FormatNodeIsBlocks | doc2md.py:28-39 | rendering a subtree yields one header, chunks and separator block per rendered node in pre-order. A node without text hides its whole subtree |
| LegacyDoc2Md.HiddenSubtree | doc2md.py:29-30 | a node without text renders nothing. A node with text whose children all lack text renders only its own block |
| LegacyDoc2Md.CollectIntoIsPutAll | doc2md.py:52-56 | `_collect_refs` assigns one entry per node with text over the full traversal, descending below nodes without text |
| LegacyDoc2Md.TextEntriesMembers | doc2md.py:53-54 | the keys assigned are exactly the short names of the nodes with text |
| LegacyDoc2Md.CollectRefs | doc2md.py:42-56 | `collect_refs`; its contract is `LegacyDoc2Md.CollectRefsSemantics` |
| LegacyDoc2Md.CollectRefsSemantics | doc2md.py:42-56 | the reference keys are exactly the short names of the nodes with text, including nodes that are never rendered. Each appears once and maps to the anchor and title of the last node with that name |
| LegacyDoc2Md.Format | doc2md.py:14-25 | `format`; its contract is `LegacyDoc2Md.FormatShape` |
| LegacyDoc2Md.FormatShape | doc2md.py:14-25 | the output is the rendered blocks, a blank separator, then two definitions per distinct name of a node with text |
| Md2Html.Anchor | md2html.py:19-20 | `anchor`; its contract is `Md2Html.AnchorIsSlug`, `Md2Html.AnchorKeepsAlnum`, `Md2Html.AnchorIdempotent` and `Md2Html.AnchorDegenerate` |
| Md2Html.CollapseRuns | md2html.py:20 | the slug is never longer than its input, and it starts with the input's first character or with a dash |
| Md2Html.AnchorIsSlug | md2html.py:19-20 | the slug holds only `a-z`, `0-9` and `-`, and never two dashes in a row |
| Md2Html.AnchorKeepsAlnum | md2html.py:19-20 | removing the dashes from the slug leaves the text's ASCII letters and digits, lower-cased and in order |
| Md2Html.AnchorIdempotent | md2html.py:19-20 | the slug of a slug is the slug itself |
| Md2Html.AnchorDegenerate | md2html.py:19-20 | the slug is empty if and only if the text is. A non-empty text with no letter or digit gives one dash |
| Md2Html.CollapseIsolated | md2html.py:20 | when no two non-alphanumeric characters are adjacent, collapsing is a one-for-one replacement by dashes |
| AnchorAgreement.SlugAgreesWithRefAnchor | microdoc/doc2md.py:75 | for an alphanumeric type and a dotted id of non-empty alphanumeric names, the slug of the header text `type id` equals the destination the collector stores |
| AnchorAgreement.SlugAgreesOnPath | microdoc/doc2md.py:72-79 | the same for the dotted id of any path of non-empty alphanumeric names |
| AnchorAgreement.DoubleDotDisagrees | microdoc/doc2md.py:75 | without that restriction the two differ: a double dot survives in the stored destination but collapses in the slug |

## Left out

- Parsing Python (`ast.parse`, `ast.get_docstring`, `ast.unparse`) is not modelled. Each declaration carries the results of those calls.
- `DocTestParser.parse` is a function parameter of the legacy extractor. Only the split into prose strings and examples is modelled.
- `url.format(path=..., line=...)` is a function parameter (`Doc2Md.Filler`). A URL template is present when it is a non-empty string, as Python's truthiness has it.
- `Path.stem` and `as_posix()` are function parameters (`Py2Doc.PathLib`). The model does not define the path normalisation `Path(...)` performs, so it proves nothing about the stored path beyond its being `as_posix` of the part of the argument before the colon.
- Text.Lower: lower-cases ASCII letters only. `str.lower` also maps non-ASCII letters.
- Text.RStrip: strips ASCII white space only. `str.isspace` also accepts non-ASCII spaces.
- File and stream I/O, `argparse`, `json.load` and `json.dump`, and the `reader`/`writer` helpers of `microdoc/utils.py` are not modelled. Neither are the command-line `main` functions beyond their argument loops.
- `md2html.py` beyond `anchor` is not modelled: the regular-expression rewriting of `<h>` and `<span>` tags and the call to the GitHub API over the network.
- `doctest_utils.py`, `inject_usage.py`, `tools/replace_vars.py`, `tests.py` and `microdoc/__init__.py` are not part of this model.
- The legacy extractor's `__main__` block (`py2doc.py:109-141`) is not modelled. It is the same argument loop as `Py2Doc.ProcessInputs` around the legacy `process_node`.
- A module node's `name` (`getattr(node, "name", None)`, which is `None` for a module) is not modelled separately, because `main` always overwrites it with the module name.
- LegacyDoc2Md.FormatShape: the legacy `format` reads the tree from `doc["doc"]`, while the legacy extractor writes `{"version", "content"}`, so the two scripts do not connect as written. The model takes the root node directly.
- LegacyPy2Doc.LegacySignatureSpec: the legacy extractor cuts the signature at the first colon anywhere, so an annotated parameter truncates it (`LegacyPy2Doc.LegacySignatureAnnotated`). The model keeps this as written, because the current `_compose_definition` is that generation's fix.
- LegacyPy2Doc.NodeText: uses the corrected coalescing pass `Chunks.Coalesce`, not the pass as written. The pass as written is `LegacyPy2Doc.CoalesceAsWritten` (see Findings).
- Python's in-place mutation of `last[1] += chunk[1]` is modelled as building new chunks. In the source, the first chunk of every run is a list object of `chunks1` that is mutated in place. Nothing reads `chunks1` after the loop, so the difference cannot be observed.

## Findings

| source | as written | input that shows it | evidently intended | confidence | as-written member | corrected member |
|---|---|---|---|---|---|---|
| py2doc.py:56-66 | after the loop, `chunks2[-1]` is read unconditionally, but `chunks2` is still empty when every chunk joined the single run held in `last`; the `IndexError` stops the whole extraction | a docstring made only of doctest examples: the parser yields empty prose, an example, empty prose, an example, empty prose, which gives two `"python"` chunks (`LegacyPy2Doc.ExamplesOnlyDocstring`) | one chunk with the two examples' joined text, as for any run of same-tag chunks | not executed | LegacyPy2Doc.CoalesceAsWritten | Chunks.CoalesceSpec |
