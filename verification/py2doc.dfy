/** The current extractor: `_compose_definition`, `process_node` and the `INPUT[:NAME]`
    handling of `main`. A node's text is its docstring, preceded for functions by a fenced
    one-line signature. */
module Py2Doc {
  import opened Results
  import opened Text
  import opened Ast
  import opened DocTree
  import opened Doc2Md

  /** Some `)` has a `:` at or after it, so `_compose_definition` does not raise. */
  predicate HasSignature(code: string) {
    exists m, s :: 0 <= m <= s < |code| && code[m] == ')' && code[s] == ':'
  }

  /** `stop` is the first `:` at or after the first `)`. */
  predicate SignatureEnd(code: string, stop: int) {
    && 0 <= stop < |code|
    && code[stop] == ':'
    && exists m :: && 0 <= m <= stop && code[m] == ')'
                   && (forall k :: 0 <= k < m ==> code[k] != ')')
                   && (forall k :: m <= k < stop ==> code[k] != ':')
  }

  /** `_compose_definition`: the source up to and including the colon that ends the
      signature, right-stripped, then `" ..."`; `str.index` raises when the `)` or that
      colon is missing. */
  function ComposeDefinition(code: string): Result<string> {
    match Find(code, ')', 0)
    case None => Err(SubstringNotFound(')'))
    case Some(min) =>
      match Find(code, ':', min)
      case None => Err(SubstringNotFound(':'))
      case Some(stop) => Ok(RStrip(code[..stop + 1]) + " ...")
  }

  /** The signature is found exactly when some `:` follows the first `)`; it is the source
      up to the first such colon, the right strip removing nothing; otherwise the error
      names the character `str.index` missed. */
  lemma ComposeDefinitionSpec(code: string)
    ensures ComposeDefinition(code).Ok? <==> HasSignature(code)
    ensures ComposeDefinition(code).Ok? ==>
              exists stop :: SignatureEnd(code, stop) && ComposeDefinition(code).value == code[..stop + 1] + " ..."
    ensures ComposeDefinition(code).Err? ==>
              ComposeDefinition(code).error == SubstringNotFound(if ')' in code then ':' else ')')
  {
    match Find(code, ')', 0)
    case None =>
    case Some(min) =>
      match Find(code, ':', min)
      case None =>
      case Some(stop) =>
        var kept := code[..stop + 1];
        assert kept[|kept| - 1] == ':';
        assert RStrip(kept) == kept;
        assert SignatureEnd(code, stop);
  }

  /** A source whose first `)` is followed, after `annotation`, by the first colon: the
      signature is everything up to that colon. */
  lemma ComposeDefinitionCut(head: string, annotation: string, tail: string)
    requires ')' !in head && ':' !in annotation
    ensures ComposeDefinition(head + ")" + annotation + ":" + tail) == Ok(head + ")" + annotation + ": ...")
  {
    var code := head + ")" + annotation + ":" + tail;
    var m := |head|;
    var stop := |head| + 1 + |annotation|;
    assert code[m] == ')' && code[stop] == ':';
    assert forall k :: 0 <= k < m ==> code[k] == head[k];
    assert forall k :: m < k < stop ==> code[k] == annotation[k - m - 1];
    assert Find(code, ')', 0) == Some(m);
    assert Find(code, ':', m) == Some(stop);
    var kept := code[..stop + 1];
    assert kept == head + ")" + annotation + ":";
    assert RStrip(kept) == kept;
    assert kept + " ..." == head + ")" + annotation + ": ...";
  }

  /** The first example of `_compose_definition`'s documentation: a plain function. */
  lemma ComposeDefinitionPlain()
    ensures ComposeDefinition("def foo(a, b): return a + b") == Ok("def foo(a, b): ...")
  {
    var head, tail := "def foo(a, b", " return a + b";
    assert ')' !in head;
    var code := head + ")" + "" + ":" + tail;
    assert code == "def foo(a, b): return a + b";
    var signature := head + ")" + "" + ": ...";
    assert signature == "def foo(a, b): ...";
    ComposeDefinitionCut(head, "", tail);
  }

  /** The second example: a coroutine keeps its `async`. */
  lemma ComposeDefinitionAsync()
    ensures ComposeDefinition("async def foo(a, b): return a + b") == Ok("async def foo(a, b): ...")
  {
    var head, tail := "async def foo(a, b", " return a + b";
    assert ')' !in head;
    var code := head + ")" + "" + ":" + tail;
    assert code == "async def foo(a, b): return a + b";
    var signature := head + ")" + "" + ": ...";
    assert signature == "async def foo(a, b): ...";
    ComposeDefinitionCut(head, "", tail);
  }

  /** The third example: the colons of parameter annotations come before the `)` and do not
      cut the signature short; the return annotation is kept. */
  lemma ComposeDefinitionAnnotated()
    ensures ComposeDefinition("def foo(a : int, b : int) -> int: return a + b")
            == Ok("def foo(a : int, b : int) -> int: ...")
  {
    var head, annotation, tail := "def foo(a : int, b : int", " -> int", " return a + b";
    assert ')' !in head && ':' !in annotation;
    var code := head + ")" + annotation + ":" + tail;
    assert code == "def foo(a : int, b : int) -> int: return a + b";
    var signature := head + ")" + annotation + ": ...";
    assert signature == "def foo(a : int, b : int) -> int: ...";
    ComposeDefinitionCut(head, annotation, tail);
  }

  /** A docstring behind the fenced signature of its function. */
  function Fenced(signature: string, docstring: string): string {
    "```python\n" + signature + "\n```\n" + docstring
  }

  /** The `text` of `process_node`: the docstring, after a fenced signature for a function;
      `None` stays `None`. */
  function NodeText(d: Decl): (r: Result<Option<string>>)
    ensures r.Ok? <==> (d.docstring.Some? && IsFunction(d.kind) ==> HasSignature(d.source))
    ensures r.Ok? ==> (r.value.None? <==> d.docstring.None?)
    ensures !IsFunction(d.kind) ==> r == Ok(d.docstring)
    ensures r.Ok? && d.docstring.Some? && IsFunction(d.kind) ==>
              exists stop :: SignatureEnd(d.source, stop)
                && r.value == Some(Fenced(d.source[..stop + 1] + " ...", d.docstring.value))
  {
    if d.docstring.None? then Ok(None)
    else if IsFunction(d.kind) then
      ComposeDefinitionSpec(d.source);
      var signature :- ComposeDefinition(d.source);
      Ok(Some(Fenced(signature, d.docstring.value)))
    else Ok(d.docstring)
  }

  /** No function with a docstring in the documented subtree lacks a signature. */
  predicate WellFormed(d: Decl)
    decreases d, 1
  {
    && (d.docstring.Some? && IsFunction(d.kind) ==> HasSignature(d.source))
    && AllWellFormed(d.body)
  }

  /** Every statement of a body that `process_node` descends into is well formed. */
  predicate AllWellFormed(body: seq<Decl>)
    decreases body, 0
  {
    forall i :: 0 <= i < |body| && Documentable(body[i].kind) ==> WellFormed(body[i])
  }

  /** The nodes stand one for one for the declarations: same type name, same name, and the
      text `NodeText` gives. */
  predicate Mirrors(ns: seq<DocNode>, ds: seq<Decl>) {
    && |ns| == |ds|
    && forall i :: 0 <= i < |ds| ==>
         && Documentable(ds[i].kind)
         && ns[i].kind == KindName(ds[i].kind)
         && ns[i].name == ds[i].name
         && Ok(ns[i].text) == NodeText(ds[i])
  }

  lemma MirrorsCons(n: DocNode, ns: seq<DocNode>, d: Decl, ds: seq<Decl>)
    requires Mirrors([n], [d]) && Mirrors(ns, ds)
    ensures Mirrors([n] + ns, [d] + ds)
  {
    forall i | 0 <= i < |ds| + 1
      ensures ([n] + ns)[i].name == ([d] + ds)[i].name
    {
      if i > 0 {
        assert ([n] + ns)[i] == ns[i - 1] && ([d] + ds)[i] == ds[i - 1];
      }
    }
  }

  /** The node of a declaration and its whole subtree, field by field: the type name, the
      name, the path with the line (1 by default), the text, and as children the nodes of
      the documented members, in order. */
  predicate Built(n: DocNode, d: Decl, path: string)
    decreases d
  {
    && Documentable(d.kind)
    && n.kind == KindName(d.kind)
    && n.name == d.name
    && n.location == Location(path, d.lineno.GetOr(1))
    && Ok(n.text) == NodeText(d)
    && |n.content| == |Members(d.body)|
    && forall i :: 0 <= i < |n.content| ==>
         var m := Members(d.body)[i];
         assert m in d.body;
         Built(n.content[i], m, path)
  }

  predicate AllBuilt(ns: seq<DocNode>, ds: seq<Decl>, path: string) {
    |ns| == |ds| && forall i :: 0 <= i < |ns| ==> Built(ns[i], ds[i], path)
  }

  lemma BuiltCons(n: DocNode, ns: seq<DocNode>, d: Decl, ds: seq<Decl>, path: string)
    requires Built(n, d, path) && AllBuilt(ns, ds, path)
    ensures AllBuilt([n] + ns, [d] + ds, path)
  {
    var r, e := [n] + ns, [d] + ds;
    assert forall i :: 1 <= i < |r| ==> r[i] == ns[i - 1] && e[i] == ds[i - 1];
  }

  /** `process_node`: the node record of a declaration, its children being the members of
      its body whose kind is documented, in order. `path` is the string `path.as_posix()`
      gives, which every node of the subtree stores. */
  function ProcessNode(d: Decl, path: string): (r: Result<DocNode>)
    requires Documentable(d.kind)
    ensures r.Ok? <==> WellFormed(d)
    ensures r.Ok? ==> && Mirrors([r.value], [d])
                      && r.value.location == Location(path, d.lineno.GetOr(1))
                      && Mirrors(r.value.content, Members(d.body))
                      && Built(r.value, d, path)
    decreases d, 1
  {
    var text :- NodeText(d);
    var children :- ProcessBody(d.body, path);
    Ok(Node(KindName(d.kind), d.name, Location(path, d.lineno.GetOr(1)), text, children))
  }

  /** The list comprehension over `node.body`; the first failing member's error surfaces. */
  function ProcessBody(body: seq<Decl>, path: string): (r: Result<seq<DocNode>>)
    ensures r.Ok? <==> AllWellFormed(body)
    ensures r.Ok? ==> && Mirrors(r.value, Members(body))
                      && AllBuilt(r.value, Members(body), path)
    decreases body, 0
  {
    if |body| == 0 then Ok([])
    else if !Documentable(body[0].kind) then
      assert AllWellFormed(body) <==> AllWellFormed(body[1..]) by {
        assert forall i :: 1 <= i < |body| ==> body[i] == body[1..][i - 1];
      }
      ProcessBody(body[1..], path)
    else
      assert AllWellFormed(body) <==> WellFormed(body[0]) && AllWellFormed(body[1..]) by {
        assert forall i :: 1 <= i < |body| ==> body[i] == body[1..][i - 1];
      }
      var node :- ProcessNode(body[0], path);
      var rest :- ProcessBody(body[1..], path);
      MirrorsCons(node, rest, body[0], Members(body[1..]));
      BuiltCons(node, rest, body[0], Members(body[1..]), path);
      Ok([node] + rest)
  }

  /** `input.split(":", 1)` when the argument has a colon: the path and the module name;
      without one, the name is left to `Path.stem`. */
  function SplitInput(arg: string): (r: (string, Option<string>))
    ensures r.1.None? <==> ':' !in arg
    ensures r.1.None? ==> r.0 == arg
    ensures r.1.Some? ==> r.0 + ":" + r.1.value == arg && ':' !in r.0
  {
    match Find(arg, ':', 0)
    case None => (arg, None)
    case Some(i) =>
      assert arg[..i] + ":" + arg[i + 1..] == arg;
      (arg[..i], Some(arg[i + 1..]))
  }

  /** One `INPUT[:NAME]` argument and the module `ast.parse` made of its file. */
  datatype SourceFile = SourceFile(arg: string, tree: Decl)

  predicate IsModule(f: SourceFile) {
    f.tree.kind.ModuleDecl?
  }

  /** The two `pathlib` operations `main` and `process_node` use, taken as given:
      `as_posix` of the normalised `Path` (which drops `.` components, repeated and
      trailing slashes) and `stem`, the file name without its suffix. */
  datatype PathLib = PathLib(asPosix: string -> string, stem: string -> string)

  /** The path `process_node` stores for an argument: the part before the colon, as
      `Path(...).as_posix()` prints it. */
  function InputPath(arg: string, paths: PathLib): string {
    paths.asPosix(SplitInput(arg).0)
  }

  function ModuleName(arg: string, paths: PathLib): string {
    var (path, name) := SplitInput(arg);
    name.GetOr(paths.stem(path))
  }

  /** The node of one input: a module named after the argument, located at the argument's
      path as `as_posix` prints it, carrying the file's text and, for every documented member, the node
      `process_node` builds of it at that path. */
  predicate ModuleNode(n: DocNode, f: SourceFile, paths: PathLib) {
    && n.name == ModuleName(f.arg, paths)
    && n.kind == "Module"
    && n.location == Location(InputPath(f.arg, paths), f.tree.lineno.GetOr(1))
    && Ok(n.text) == NodeText(f.tree)
    && Mirrors(n.content, Members(f.tree.body))
    && AllBuilt(n.content, Members(f.tree.body), n.location.path)
  }

  /** The loop of `main`: one top-level node per input, named after the argument. */
  function ProcessInputs(inputs: seq<SourceFile>, paths: PathLib): Result<seq<DocNode>>
    requires forall i :: 0 <= i < |inputs| ==> IsModule(inputs[i])
  {
    if |inputs| == 0 then Ok([])
    else
      var f := inputs[0];
      assert IsModule(f);
      var node :- ProcessNode(f.tree, InputPath(f.arg, paths));
      var rest :- ProcessInputs(inputs[1..], paths);
      Ok([node.(name := ModuleName(f.arg, paths))] + rest)
  }

  /** The node `process_node` builds of an input's module, renamed after the argument, is
      that input's module node. */
  lemma RenamedModuleNode(f: SourceFile, paths: PathLib)
    requires IsModule(f) && ProcessNode(f.tree, InputPath(f.arg, paths)).Ok?
    ensures ModuleNode(ProcessNode(f.tree, InputPath(f.arg, paths)).value.(name := ModuleName(f.arg, paths)), f, paths)
  {
    var n := ProcessNode(f.tree, InputPath(f.arg, paths)).value;
    assert [n][0] == n && [f.tree][0] == f.tree;
  }

  /** One turn of the loop: the first input's node in front of the rest's. */
  lemma ProcessInputsCons(inputs: seq<SourceFile>, paths: PathLib)
    requires |inputs| > 0 && forall i :: 0 <= i < |inputs| ==> IsModule(inputs[i])
    requires IsModule(inputs[0])
    ensures var f := inputs[0];
            var node, rest := ProcessNode(f.tree, InputPath(f.arg, paths)), ProcessInputs(inputs[1..], paths);
            && (ProcessInputs(inputs, paths).Ok? <==> node.Ok? && rest.Ok?)
            && (node.Ok? && rest.Ok? ==>
                  ProcessInputs(inputs, paths).value == [node.value.(name := ModuleName(f.arg, paths))] + rest.value)
  {
    assert IsModule(inputs[0]);
  }

  /** The loop succeeds exactly when every input is well formed. */
  lemma {:induction false} ProcessInputsOk(inputs: seq<SourceFile>, paths: PathLib)
    requires forall i :: 0 <= i < |inputs| ==> IsModule(inputs[i])
    ensures ProcessInputs(inputs, paths).Ok? <==> forall i :: 0 <= i < |inputs| ==> WellFormed(inputs[i].tree)
  {
    if |inputs| > 0 {
      var f, more := inputs[0], inputs[1..];
      assert IsModule(f);
      assert forall i :: 1 <= i < |inputs| ==> inputs[i] == more[i - 1];
      ProcessInputsCons(inputs, paths);
      ProcessInputsOk(more, paths);
    }
  }

  /** With every input well formed, the loop gives one module node per input, in order. */
  lemma {:induction false} ProcessInputsNodes(inputs: seq<SourceFile>, paths: PathLib)
    requires forall i :: 0 <= i < |inputs| ==> IsModule(inputs[i])
    requires forall i :: 0 <= i < |inputs| ==> WellFormed(inputs[i].tree)
    ensures var r := ProcessInputs(inputs, paths);
            && r.Ok?
            && |r.value| == |inputs|
            && forall i :: 0 <= i < |inputs| ==> ModuleNode(r.value[i], inputs[i], paths)
  {
    ProcessInputsOk(inputs, paths);
    if |inputs| > 0 {
      var f, more := inputs[0], inputs[1..];
      assert IsModule(f);
      assert forall i :: 1 <= i < |inputs| ==> inputs[i] == more[i - 1];
      ProcessInputsCons(inputs, paths);
      var node := ProcessNode(f.tree, InputPath(f.arg, paths)).value;
      var rest := ProcessInputs(more, paths).value;
      ProcessInputsNodes(more, paths);
      RenamedModuleNode(f, paths);
      assert inputs == [f] + more;
      var named := node.(name := ModuleName(f.arg, paths));
      var isNode := (n: DocNode, g: SourceFile) => ModuleNode(n, g, paths);
      PointwiseCons(isNode, named, rest, f, more);
    }
  }

  /** A relation that holds pointwise of two lists and of two new heads holds pointwise of
      the extended lists. */
  lemma PointwiseCons<A, B>(P: (A, B) -> bool, x: A, xs: seq<A>, y: B, ys: seq<B>)
    requires P(x, y)
    requires |xs| == |ys| && forall i :: 0 <= i < |ys| ==> P(xs[i], ys[i])
    ensures forall i :: 0 <= i < |ys| + 1 ==> P(([x] + xs)[i], ([y] + ys)[i])
  {
    var r, e := [x] + xs, [y] + ys;
    assert forall i :: 1 <= i < |r| ==> r[i] == xs[i - 1] && e[i] == ys[i - 1];
  }

  /** The document `main` dumps: the tool's version and one node per input, in order. */
  function BuildDocument(version: string, inputs: seq<SourceFile>, paths: PathLib): (r: Result<Document>)
    requires forall i :: 0 <= i < |inputs| ==> IsModule(inputs[i])
    ensures r.Ok? <==> forall i :: 0 <= i < |inputs| ==> WellFormed(inputs[i].tree)
    ensures r.Ok? ==> && r.value.version == version
                      && |r.value.content| == |inputs|
                      && forall i :: 0 <= i < |inputs| ==> ModuleNode(r.value.content[i], inputs[i], paths)
  {
    ProcessInputsOk(inputs, paths);
    match ProcessInputs(inputs, paths)
    case Err(e) => Err(e)
    case Ok(content) =>
      ProcessInputsNodes(inputs, paths);
      Ok(Document(version, content))
  }

  /** Splitting an argument and joining the parts back with a colon gives the argument. */
  lemma SplitInputRoundTrip(path: string, name: string)
    requires ':' !in path
    ensures SplitInput(path + ":" + name) == (path, Some(name))
  {
    var arg := path + ":" + name;
    assert arg[|path|] == ':';
    assert forall k :: 0 <= k < |path| ==> arg[k] == path[k];
    assert Find(arg, ':', 0) == Some(|path|);
    assert arg[..|path|] == path;
    assert arg[|path| + 1..] == name;
  }
}
