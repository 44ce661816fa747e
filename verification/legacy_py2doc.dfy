/** The legacy extractor's `process_node`: a docstring becomes a list of chunks, one per
    doctest example (tagged `"python"`, prompts restored) and one per non-empty prose
    fragment, neighbouring chunks of one tag are merged, and a function gets a leading
    `"python"` chunk with its signature. The doctest parser is taken as given. */
module LegacyPy2Doc {
  import opened Results
  import opened Text
  import opened Ast
  import opened DocTree
  import opened Chunks
  import opened LegacyDoc2Md
  import Py2Doc

  /** What `DocTestParser.parse` yields: prose strings and examples. */
  datatype Part = Prose(text: string) | Example(source: string, want: string)

  type Parser = string -> seq<Part>

  const PythonTag: Option<string> := Some("python")

  /** The example's source with its prompts restored: `>>> ` in front, and `... ` after
      every line break of the right-stripped source. */
  function Reprompt(source: string): string {
    ">>> " + Replace(RStrip(source), '\n', "\n... ")
  }

  /** The inverse scan: every `"\n... "` loses its continuation prompt. */
  function Unprompt(s: string): string
    decreases |s|
  {
    if |s| == 0 then ""
    else if |s| >= 5 && s[..5] == "\n... " then "\n" + Unprompt(s[5..])
    else [s[0]] + Unprompt(s[1..])
  }

  lemma {:induction false} UnpromptInverts(s: string)
    ensures Unprompt(Replace(s, '\n', "\n... ")) == s
  {
    if |s| > 0 {
      var rest := Replace(s[1..], '\n', "\n... ");
      UnpromptInverts(s[1..]);
      if s[0] == '\n' {
        var t := "\n... " + rest;
        assert t[..5] == "\n... " && t[5..] == rest;
        assert s == "\n" + s[1..];
      } else {
        var t := [s[0]] + rest;
        assert t[1..] == rest;
        if |t| >= 5 {
          assert t[..5][0] == s[0];
        }
        assert s == [s[0]] + s[1..];
      }
    }
  }

  /** Every line break is followed by a continuation prompt. */
  predicate Prompted(r: string) {
    forall i :: 0 <= i < |r| && r[i] == '\n' ==> PromptAt(r, i + 1)
  }

  /** The continuation prompt `... ` starts at position `k`. */
  predicate PromptAt(r: string, k: int) {
    0 <= k && k + 4 <= |r| && r[k] == '.' && r[k + 1] == '.' && r[k + 2] == '.' && r[k + 3] == ' '
  }

  /** No line of the restored source is left without its prompt. */
  lemma {:induction false} EveryLinePrompted(s: string)
    ensures Prompted(Replace(s, '\n', "\n... "))
  {
    if |s| > 0 {
      var head: string := if s[0] == '\n' then "\n... " else [s[0]];
      var rest := Replace(s[1..], '\n', "\n... ");
      var r := head + rest;
      assert r == Replace(s, '\n', "\n... ");
      EveryLinePrompted(s[1..]);
      PromptedAfter(head, rest);
    }
  }

  /** Restoring the prompts of an unprompted text gives back every prompted text: with
      `UnpromptInverts`, the prompted form of a source is the only prompted text that
      unprompts to it. */
  lemma {:induction false} PromptedUnique(m: string)
    requires Prompted(m)
    ensures Replace(Unprompt(m), '\n', "\n... ") == m
    decreases |m|
  {
    if |m| > 0 {
      if m[0] == '\n' {
        assert PromptAt(m, 1);
        assert m[..5] == "\n... ";
        PromptedSuffix(m, 5);
        PromptedUnique(m[5..]);
        assert Unprompt(m) == "\n" + Unprompt(m[5..]);
        assert ("\n" + Unprompt(m[5..]))[1..] == Unprompt(m[5..]);
        assert m == "\n... " + m[5..];
      } else {
        PromptedSuffix(m, 1);
        PromptedUnique(m[1..]);
        assert Unprompt(m) == [m[0]] + Unprompt(m[1..]);
        assert ([m[0]] + Unprompt(m[1..]))[1..] == Unprompt(m[1..]);
        assert m == [m[0]] + m[1..];
      }
    }
  }

  lemma PromptedSuffix(m: string, k: nat)
    requires Prompted(m) && k <= |m|
    ensures Prompted(m[k..])
  {
    var t := m[k..];
    forall i | 0 <= i < |t| && t[i] == '\n' ensures PromptAt(t, i + 1) {
      assert m[k + i] == '\n';
      assert PromptAt(m, k + i + 1);
    }
  }

  /** A prompted text stays prompted behind a head whose every line break is followed by a
      prompt. */
  lemma PromptedAfter(head: string, rest: string)
    requires head == "\n... " || (|head| == 1 && head[0] != '\n')
    requires Prompted(rest)
    ensures Prompted(head + rest)
  {
    var r := head + rest;
    forall i | 0 <= i < |r| && r[i] == '\n' ensures PromptAt(r, i + 1) {
      if i >= |head| {
        var j := i - |head|;
        assert rest[j] == r[i];
        assert PromptAt(rest, j + 1);
        assert forall k :: j + 1 <= k < j + 5 ==> r[k + |head|] == rest[k];
      } else if head == "\n... " {
        assert i == 0;
        assert forall k :: 0 <= k < 5 ==> r[k] == head[k];
      }
    }
  }

  /** The chunk of one doctest example: the prompted source, a line break, the expected
      output. */
  function ExampleChunk(source: string, want: string): (c: Chunk)
    ensures c.tag == PythonTag
  {
    Chunk(PythonTag, Reprompt(source) + "\n" + want)
  }

  /** The example chunk can be taken apart again: the prompt, the source (right-stripped)
      with a continuation prompt after each of its line breaks, the line break and the
      expected output. */
  lemma ExampleRoundTrip(source: string, want: string)
    ensures var t := ExampleChunk(source, want).text;
            && |t| >= 5 + |want|
            && t[..4] == ">>> "
            && Unprompt(t[4..|t| - |want| - 1]) == RStrip(source)
            && Prompted(t[4..|t| - |want| - 1])
            && t[|t| - |want| - 1] == '\n'
            && t[|t| - |want|..] == want
  {
    var p := Replace(RStrip(source), '\n', "\n... ");
    var t := ExampleChunk(source, want).text;
    assert t == ">>> " + p + "\n" + want;
    assert t[4..|t| - |want| - 1] == p;
    UnpromptInverts(RStrip(source));
    EveryLinePrompted(RStrip(source));
  }

  /** The chunk a parser part contributes; an empty prose string contributes none. */
  function ChunkOf(p: Part): Option<Chunk> {
    match p
    case Prose(t) => if t == "" then None else Some(Chunk(None, t))
    case Example(s, w) => Some(ExampleChunk(s, w))
  }

  function PartText(p: Part): string {
    match p
    case Prose(t) => t
    case Example(s, w) => ExampleChunk(s, w).text
  }

  /** Reference definition: the text of all parts, in order. */
  function PartsText(parts: seq<Part>): string {
    if |parts| == 0 then "" else PartsText(parts[..|parts| - 1]) + PartText(parts[|parts| - 1])
  }

  /** The first loop of `process_node`: one chunk per part except the empty prose strings. */
  function ChunksOf(parts: seq<Part>): seq<Chunk> {
    if |parts| == 0 then []
    else
      var r0 := ChunksOf(parts[..|parts| - 1]);
      match ChunkOf(parts[|parts| - 1])
      case None => r0
      case Some(c) => r0 + [c]
  }

  /** The chunk list is no longer than the parser's output and empty exactly when every part
      is empty prose; each chunk is a `"python"` example or non-empty prose. */
  lemma {:induction false} ChunksOfShape(parts: seq<Part>)
    ensures var r := ChunksOf(parts);
            && |r| <= |parts|
            && (|r| == 0 <==> forall i :: 0 <= i < |parts| ==> parts[i] == Prose(""))
            && (forall i :: 0 <= i < |r| ==> r[i].tag == PythonTag || (r[i].tag.None? && r[i].text != ""))
  {
    if |parts| > 0 {
      var init := parts[..|parts| - 1];
      var p := parts[|parts| - 1];
      assert forall i :: 0 <= i < |init| ==> parts[i] == init[i];
      ChunksOfShape(init);
      var r0 := ChunksOf(init);
      match ChunkOf(p)
      case None =>
        assert ChunksOf(parts) == r0;
      case Some(c) =>
        var r := r0 + [c];
        assert ChunksOf(parts) == r;
        forall i | 0 <= i < |r| ensures r[i].tag == PythonTag || (r[i].tag.None? && r[i].text != "") {
          if i < |r0| {
            assert r[i] == r0[i];
          }
        }
    }
  }

  /** The chunk texts joined are the texts of all the parts: dropping the empty prose strings
      loses nothing. */
  lemma {:induction false} ChunksOfTexts(parts: seq<Part>)
    ensures Texts(ChunksOf(parts)) == PartsText(parts)
  {
    if |parts| > 0 {
      var init := parts[..|parts| - 1];
      var p := parts[|parts| - 1];
      ChunksOfTexts(init);
      var r0 := ChunksOf(init);
      match ChunkOf(p)
      case None =>
        assert ChunksOf(parts) == r0;
      case Some(c) =>
        assert ChunksOf(parts) == r0 + [c];
        TextsSnoc(r0, c);
    }
  }

  lemma ChunksOfSnoc(parts: seq<Part>, p: Part)
    ensures ChunksOf(parts + [p]) == ChunksOf(parts) + (if ChunkOf(p).Some? then [ChunkOf(p).value] else [])
  {
    assert (parts + [p])[..|parts|] == parts;
  }

  /** The loop handles the parts one after another: the chunks of a joined part list are the
      chunks of the first list, then those of the second. */
  lemma {:induction false} ChunksOfConcat(a: seq<Part>, b: seq<Part>)
    ensures ChunksOf(a + b) == ChunksOf(a) + ChunksOf(b)
    decreases |b|
  {
    if |b| == 0 {
      assert a + b == a;
    } else {
      var init, p := b[..|b| - 1], b[|b| - 1];
      assert b == init + [p];
      assert a + b == (a + init) + [p];
      ChunksOfSnoc(a + init, p);
      ChunksOfSnoc(init, p);
      ChunksOfConcat(a, init);
    }
  }

  /** A prose part becomes one untagged chunk with its text unchanged, unless it is empty. */
  lemma ChunksOfProse(t: string)
    ensures ChunksOf([Prose(t)]) == if t == "" then [] else [Chunk(None, t)]
  {
    ChunksOfSnoc([], Prose(t));
  }

  /** An example becomes one `"python"` chunk holding its prompted source and its output. */
  lemma ChunksOfExample(source: string, want: string)
    ensures ChunksOf([Example(source, want)]) == [ExampleChunk(source, want)]
    ensures ChunksOf([Example(source, want)])[0].tag == PythonTag
  {
    ChunksOfSnoc([], Example(source, want));
  }

  /** The loop of the coalescing pass: `chunks2` holds the finished runs and `last` the run
      in progress, which together are the coalesced list. */
  method CoalesceLoop(chunks1: seq<Chunk>) returns (chunks2: seq<Chunk>, last: Chunk)
    requires |chunks1| > 0
    ensures chunks2 + [last] == Coalesce(chunks1)
  {
    last := chunks1[0];
    chunks2 := [];
    assert chunks1[..1] == [last];
    for i := 1 to |chunks1|
      invariant chunks2 + [last] == Coalesce(chunks1[..i])
    {
      var chunk := chunks1[i];
      CoalesceSnoc(chunks1, i);
      PushOnto(chunks2, last, chunk);
      if chunk.tag == last.tag {
        last := Chunk(last.tag, last.text + chunk.text);
      } else {
        chunks2 := chunks2 + [last];
        last := chunk;
      }
    }
    assert chunks1[..|chunks1|] == chunks1;
  }

  /** The coalescing pass exactly as the legacy code has it: `chunks2[-1]` is read after the
      loop, and it raises when every chunk went into the one run still held in `last`. */
  method CoalesceAsWritten(chunks1: seq<Chunk>) returns (r: Result<seq<Chunk>>)
    ensures r.Err? <==> |chunks1| == 0 || (|chunks1| >= 2 && AllSameTag(chunks1))
    ensures |chunks1| == 0 ==> r == Err(NoChunks)
    ensures |chunks1| >= 2 && AllSameTag(chunks1) ==> r == Err(EmptyListIndex)
    ensures r.Ok? ==> r.value == Coalesce(chunks1)
  {
    if |chunks1| == 0 {
      return Err(NoChunks);
    }
    if |chunks1| == 1 {
      return Ok(chunks1);
    }
    var chunks2, last := CoalesceLoop(chunks1);
    CoalesceSpec(chunks1);
    if |chunks2| == 0 {
      return Err(EmptyListIndex);
    }
    assert chunks2[|chunks2| - 1] == (chunks2 + [last])[|chunks2| - 1];
    assert last == (chunks2 + [last])[|chunks2|];
    if last != chunks2[|chunks2| - 1] {
      chunks2 := chunks2 + [last];
    }
    return Ok(chunks2);
  }

  /** The parts around and between two examples are empty prose and yield no chunk. */
  lemma ExamplesOnlyChunks(source1: string, want1: string, source2: string, want2: string)
    ensures ChunksOf([Prose(""), Example(source1, want1), Prose(""), Example(source2, want2), Prose("")])
            == [ExampleChunk(source1, want1), ExampleChunk(source2, want2)]
  {
    var empty, e1, e2 := Prose(""), Example(source1, want1), Example(source2, want2);
    var p0: seq<Part> := [];
    var p1 := p0 + [empty];
    var p2 := p1 + [e1];
    var p3 := p2 + [empty];
    var p4 := p3 + [e2];
    var p5 := p4 + [empty];
    ChunksOfSnoc(p0, empty);
    ChunksOfSnoc(p1, e1);
    ChunksOfSnoc(p2, empty);
    ChunksOfSnoc(p3, e2);
    ChunksOfSnoc(p4, empty);
    assert p5 == [empty, e1, empty, e2, empty];
  }

  /** A docstring made only of two doctest examples: the parser yields empty prose around
      the examples, which become two `"python"` chunks, and the loop above leaves `chunks2`
      empty. The intended result is one chunk holding both examples. */
  lemma ExamplesOnlyDocstring(source1: string, want1: string, source2: string, want2: string)
    ensures var cs := ChunksOf([Prose(""), Example(source1, want1), Prose(""), Example(source2, want2), Prose("")]);
            && cs == [ExampleChunk(source1, want1), ExampleChunk(source2, want2)]
            && AllSameTag(cs)
            && Coalesce(cs) == [Chunk(PythonTag, cs[0].text + cs[1].text)]
  {
    ExamplesOnlyChunks(source1, want1, source2, want2);
    CoalesceSameTagPair(ExampleChunk(source1, want1), ExampleChunk(source2, want2));
  }

  /** The signature chunk's text: the source up to the first colon anywhere in it,
      right-stripped, then `" ...\n"`; `str.index` raises without a colon. */
  function LegacySignature(source: string): Result<string> {
    match Find(source, ':', 0)
    case None => Err(SubstringNotFound(':'))
    case Some(stop) => Ok(RStrip(source[..stop + 1]) + " ...\n")
  }

  /** The signature is found exactly when the source has a colon: a prefix of the source
      ending in its first colon, then `" ...\n"`. */
  lemma LegacySignatureSpec(source: string)
    ensures LegacySignature(source).Ok? <==> ':' in source
    ensures LegacySignature(source).Err? ==> LegacySignature(source).error == SubstringNotFound(':')
    ensures LegacySignature(source).Ok? ==>
              var r := LegacySignature(source).value;
              && |r| >= 6
              && var p := r[..|r| - 5];
                 && p <= source && p[|p| - 1] == ':' && ':' !in p[..|p| - 1]
                 && r[|p|..] == " ...\n"
  {
    match Find(source, ':', 0)
    case None =>
    case Some(stop) =>
      var kept := source[..stop + 1];
      assert kept[|kept| - 1] == ':';
      assert RStrip(kept) == kept;
      assert forall k :: 0 <= k < stop ==> kept[..stop][k] == source[k];
      var r := kept + " ...\n";
      assert r[..|r| - 5] == kept;
  }

  /** The signature ends at the first colon of the source, wherever it is. */
  lemma LegacySignatureCut(head: string, rest: string)
    requires ':' !in head
    ensures LegacySignature(head + ":" + rest) == Ok(head + ": ...\n")
  {
    var code := head + ":" + rest;
    assert code[|head|] == ':';
    assert forall k :: 0 <= k < |head| ==> code[k] == head[k];
    assert Find(code, ':', 0) == Some(|head|);
    var kept := code[..|head| + 1];
    assert kept == head + ":";
    assert RStrip(kept) == kept;
    assert kept + " ...\n" == head + ": ...\n";
  }

  /** When no colon comes before the first `)`, the legacy signature is the current
      `_compose_definition` result on its own line. */
  lemma LegacySignatureAgrees(head: string, annotation: string, tail: string)
    requires ')' !in head && ':' !in head && ':' !in annotation
    ensures var code := head + ")" + annotation + ":" + tail;
            && Py2Doc.ComposeDefinition(code).Ok?
            && LegacySignature(code) == Ok(Py2Doc.ComposeDefinition(code).value + "\n")
  {
    var code := head + ")" + annotation + ":" + tail;
    Py2Doc.ComposeDefinitionCut(head, annotation, tail);
    assert ':' !in head + ")" + annotation;
    assert code == (head + ")" + annotation) + ":" + tail;
    LegacySignatureCut(head + ")" + annotation, tail);
    assert (head + ")" + annotation) + ": ...\n" == head + ")" + annotation + ": ..." + "\n";
  }

  /** A colon before the first `)`, as in an annotated parameter, cuts the legacy signature
      short: `def foo(a: int): return a` gives `def foo(a: ...`. */
  lemma LegacySignatureAnnotated()
    ensures LegacySignature("def foo(a: int): return a") == Ok("def foo(a: ...\n")
  {
    var head, rest := "def foo(a", " int): return a";
    assert ':' !in head;
    var code := head + ":" + rest;
    assert code == "def foo(a: int): return a";
    var signature := head + ": ...\n";
    assert signature == "def foo(a: ...\n";
    LegacySignatureCut(head, rest);
  }

  /** The current version keeps the whole signature of the same function. */
  lemma CurrentSignatureAnnotated()
    ensures Py2Doc.ComposeDefinition("def foo(a: int): return a") == Ok("def foo(a: int): ...")
  {
    var head, tail := "def foo(a: int", " return a";
    assert ')' !in head;
    var code := head + ")" + "" + ":" + tail;
    assert code == "def foo(a: int): return a";
    var signature := head + ")" + "" + ": ...";
    assert signature == "def foo(a: int): ...";
    Py2Doc.ComposeDefinitionCut(head, "", tail);
  }

  /** `process_node` raises for a docstring without chunks, and for a function with a
      docstring whose source has no colon. */
  predicate TextOk(d: Decl, parse: Parser) {
    d.docstring.Some? ==> && |ChunksOf(parse(d.docstring.value))| > 0
                          && (IsFunction(d.kind) ==> ':' in d.source)
  }

  /** The chunks of a node's text that come from its docstring: all but the signature. */
  function DocstringChunks(d: Decl, text: seq<Chunk>): seq<Chunk>
    requires |text| > 0
  {
    if IsFunction(d.kind) then text[1..] else text
  }

  /** The `text` of the legacy `process_node`, with the coalescing pass as evidently
      intended. */
  function NodeText(d: Decl, parse: Parser): (r: Result<Option<seq<Chunk>>>)
    ensures r.Ok? <==> TextOk(d, parse)
    ensures d.docstring.Some? && |ChunksOf(parse(d.docstring.value))| == 0 ==> r == Err(NoChunks)
    ensures r.Ok? ==> (r.value.None? <==> d.docstring.None?)
    ensures r.Ok? && r.value.Some? ==>
              && |r.value.value| > 0
              && (IsFunction(d.kind) ==> && r.value.value[0].tag == PythonTag
                                         && LegacySignature(d.source) == Ok(r.value.value[0].text))
    ensures r.Ok? && r.value.Some? ==>
              var cs := ChunksOf(parse(d.docstring.value));
              var body := DocstringChunks(d, r.value.value);
              && body == Coalesce(cs)
              && NoAdjacentSameTag(body)
              && Texts(body) == Texts(cs)
              && Tags(body) == Dedup(Tags(cs))
              && (|cs| == 1 ==> body == cs)
  {
    if d.docstring.None? then Ok(None)
    else
      var chunks := ChunksOf(parse(d.docstring.value));
      if |chunks| == 0 then Err(NoChunks)
      else
        CoalesceSpec(chunks);
        if IsFunction(d.kind) then
          LegacySignatureSpec(d.source);
          var signature :- LegacySignature(d.source);
          var text := [Chunk(PythonTag, signature)] + Coalesce(chunks);
          assert text[1..] == Coalesce(chunks);
          Ok(Some(text))
        else Ok(Some(Coalesce(chunks)))
  }

  predicate WellFormed(d: Decl, parse: Parser)
    decreases d, 1
  {
    TextOk(d, parse) && AllWellFormed(d.body, parse)
  }

  predicate AllWellFormed(body: seq<Decl>, parse: Parser)
    decreases body, 0
  {
    forall i :: 0 <= i < |body| && Documentable(body[i].kind) ==> WellFormed(body[i], parse)
  }

  /** The nodes stand one for one for the declarations: same type name, same name, and the
      text `NodeText` gives. */
  predicate Mirrors(ns: seq<LegacyNode>, ds: seq<Decl>, parse: Parser) {
    && |ns| == |ds|
    && forall i :: 0 <= i < |ds| ==>
         && Documentable(ds[i].kind)
         && ns[i].kind == KindName(ds[i].kind)
         && ns[i].name == ds[i].name
         && Ok(ns[i].text) == NodeText(ds[i], parse)
  }

  lemma MirrorsCons(n: LegacyNode, ns: seq<LegacyNode>, d: Decl, ds: seq<Decl>, parse: Parser)
    requires Mirrors([n], [d], parse) && Mirrors(ns, ds, parse)
    ensures Mirrors([n] + ns, [d] + ds, parse)
  {
    forall i | 0 <= i < |ds| + 1
      ensures ([n] + ns)[i].name == ([d] + ds)[i].name
    {
      if i > 0 {
        assert ([n] + ns)[i] == ns[i - 1] && ([d] + ds)[i] == ds[i - 1];
      }
    }
  }

  /** The node of a declaration and its whole subtree, field by field: the type name, the
      name, the path with the line (1 by default), the text, and as children the nodes of
      the documented members, in order. */
  predicate Built(n: LegacyNode, d: Decl, path: string, parse: Parser)
    decreases d
  {
    && Documentable(d.kind)
    && n.kind == KindName(d.kind)
    && n.name == d.name
    && n.location == Location(path, d.lineno.GetOr(1))
    && Ok(n.text) == NodeText(d, parse)
    && |n.content| == |Members(d.body)|
    && forall i :: 0 <= i < |n.content| ==>
         var m := Members(d.body)[i];
         assert m in d.body;
         Built(n.content[i], m, path, parse)
  }

  predicate AllBuilt(ns: seq<LegacyNode>, ds: seq<Decl>, path: string, parse: Parser) {
    |ns| == |ds| && forall i :: 0 <= i < |ns| ==> Built(ns[i], ds[i], path, parse)
  }

  lemma BuiltCons(n: LegacyNode, ns: seq<LegacyNode>, d: Decl, ds: seq<Decl>, path: string, parse: Parser)
    requires Built(n, d, path, parse) && AllBuilt(ns, ds, path, parse)
    ensures AllBuilt([n] + ns, [d] + ds, path, parse)
  {
    var r, e := [n] + ns, [d] + ds;
    assert forall i :: 1 <= i < |r| ==> r[i] == ns[i - 1] && e[i] == ds[i - 1];
  }

  /** The legacy `process_node`: the node record of a declaration, its children being the
      members of its body whose kind is documented, in order. */
  function ProcessNode(d: Decl, path: string, parse: Parser): (r: Result<LegacyNode>)
    requires Documentable(d.kind)
    ensures r.Ok? <==> WellFormed(d, parse)
    ensures r.Ok? ==> && Mirrors([r.value], [d], parse)
                      && r.value.location == Location(path, d.lineno.GetOr(1))
                      && Mirrors(r.value.content, Members(d.body), parse)
                      && Built(r.value, d, path, parse)
    decreases d, 1
  {
    var text :- NodeText(d, parse);
    var children :- ProcessBody(d.body, path, parse);
    Ok(Node(KindName(d.kind), d.name, Location(path, d.lineno.GetOr(1)), text, children))
  }

  function ProcessBody(body: seq<Decl>, path: string, parse: Parser): (r: Result<seq<LegacyNode>>)
    ensures r.Ok? <==> AllWellFormed(body, parse)
    ensures r.Ok? ==> && Mirrors(r.value, Members(body), parse)
                      && AllBuilt(r.value, Members(body), path, parse)
    decreases body, 0
  {
    if |body| == 0 then Ok([])
    else if !Documentable(body[0].kind) then
      assert AllWellFormed(body, parse) <==> AllWellFormed(body[1..], parse) by {
        assert forall i :: 1 <= i < |body| ==> body[i] == body[1..][i - 1];
      }
      ProcessBody(body[1..], path, parse)
    else
      assert AllWellFormed(body, parse) <==> WellFormed(body[0], parse) && AllWellFormed(body[1..], parse) by {
        assert forall i :: 1 <= i < |body| ==> body[i] == body[1..][i - 1];
      }
      var node :- ProcessNode(body[0], path, parse);
      var rest :- ProcessBody(body[1..], path, parse);
      MirrorsCons(node, rest, body[0], Members(body[1..]), parse);
      BuiltCons(node, rest, body[0], Members(body[1..]), path, parse);
      Ok([node] + rest)
  }
}
