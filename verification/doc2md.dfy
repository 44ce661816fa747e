/** The current Markdown formatter (`format`, `format_node`, `format_refs`, `collect_refs`):
    it renders a documentation tree whose node texts are pre-joined strings, one header per
    node with text, followed by a block of reference-link definitions for every node. The
    yielded pieces of the Python generator are the elements of a `seq<string>`. */
module Doc2Md {
  import opened Results
  import opened Text
  import opened Escaping
  import opened DocTree
  import opened RefTable

  type DocNode = Node<char>

  datatype Document = Document(version: string, content: seq<DocNode>)

  /** The value a reference key maps to: the anchor it links to and the link title. */
  datatype Ref = Ref(destination: string, title: string)

  /** The URL template's `format(path=..., line=...)`, which the model takes as given. */
  type Filler = (string, string, int) -> string

  const ReferencesMarker := "<!-- references -->\n"

  /** `'#' * level`: Python repeats a string zero times for a level below one. */
  function Hashes(level: int): (r: string)
    ensures |r| == (if level > 0 then level else 0)
    ensures forall i :: 0 <= i < |r| ==> r[i] == '#'
  {
    if level <= 0 then "" else Hashes(level - 1) + "#"
  }

  /** The header line of a node; with a (truthy) URL template the id becomes a link. */
  function HeaderLine(level: int, kind: string, id: string, loc: Location,
                      url: Option<string>, fill: Filler): string
  {
    var header := Hashes(level) + " " + kind;
    if url.Some? && url.value != "" then header + " [" + id + "](" + fill(url.value, loc.path, loc.line) + ")\n"
    else header + " " + id + "\n"
  }

  /** A header line starts with the level's hashes, a space and the type, shows the id
      right after one more space (or after `" ["` when it is a link), and ends the line. */
  lemma HeaderLineShape(level: int, kind: string, id: string, loc: Location, url: Option<string>, fill: Filler)
    ensures var r, k := HeaderLine(level, kind, id, loc, url, fill), |Hashes(level)| + 1 + |kind|;
            && |r| > k + |id|
            && r[..k] == Hashes(level) + " " + kind
            && r[|r| - 1] == '\n'
            && (url.None? || url.value == "" ==> r[k] == ' ' && r[k + 1..k + 1 + |id|] == id && |r| == k + |id| + 2)
            && (url.Some? && url.value != "" ==> r[k..k + 2] == " [" && r[k + 2..k + 2 + |id|] == id)
  {
    var header := Hashes(level) + " " + kind;
    if url.Some? && url.value != "" {
      var r := header + " [" + id + "](" + fill(url.value, loc.path, loc.line) + ")\n";
      assert r[..|header|] == header;
      assert r[|header|..|header| + 2] == " [";
      assert r[|header| + 2..|header| + 2 + |id|] == id;
    } else {
      var r := header + " " + id + "\n";
      assert r[..|header|] == header;
      assert r[|header| + 1..|header| + 1 + |id|] == id;
    }
  }

  /** `format_node`: nothing at all for a node without text; otherwise header, text and a
      blank separator, then the children one level deeper with the id as prefix. */
  function FormatNode(n: DocNode, level: int, prefix: string, url: Option<string>, fill: Filler): seq<string>
    decreases n, 1
  {
    if !HasText(n) then []
    else
      var id := prefix + EscapeMarkdown(n.name);
      [HeaderLine(level, n.kind, id, n.location, url, fill), n.text.value, "\n\n"]
      + FormatNodes(n.content, level + 1, id + ".", url, fill)
  }

  function FormatNodes(ns: seq<DocNode>, level: int, prefix: string, url: Option<string>, fill: Filler): seq<string>
    decreases ns, 0
  {
    if |ns| == 0 then [] else FormatNode(ns[0], level, prefix, url, fill) + FormatNodes(ns[1..], level, prefix, url, fill)
  }

  /** The loop of `format` over the top-level nodes: each one's output and then `"\n"`. */
  function FormatTop(ns: seq<DocNode>, level: int, url: Option<string>, fill: Filler): seq<string>
  {
    if |ns| == 0 then [] else FormatNode(ns[0], level, "", url, fill) + ["\n"] + FormatTop(ns[1..], level, url, fill)
  }

  /** `format`: the rendered tree followed by the reference block. */
  function Format(doc: Document, level: int, url: Option<string>, fill: Filler): seq<string>
  {
    FormatTop(doc.content, level, url, fill) + FormatRefs(CollectRefs(doc))
  }

  /** The two link-reference definitions of one entry. */
  function PlainDef(e: (string, Ref)): string {
    "[" + e.0 + "]: #" + e.1.destination + " \"" + e.1.title + "\"\n"
  }

  function TickedDef(e: (string, Ref)): string {
    "[`" + e.0 + "`]: #" + e.1.destination + " \"" + e.1.title + "\"\n"
  }

  function RefLines(refs: Table<Ref>): (r: seq<string>)
    ensures |r| == 2 * |refs|
    ensures forall i :: 0 <= i < |refs| ==> r[2 * i] == PlainDef(refs[i]) && r[2 * i + 1] == TickedDef(refs[i])
  {
    if |refs| == 0 then []
    else
      var rest := RefLines(refs[1..]);
      var r := [PlainDef(refs[0]), TickedDef(refs[0])] + rest;
      assert forall j :: 2 <= j < |r| ==> r[j] == rest[j - 2];
      assert forall i :: 1 <= i < |refs| ==> refs[i] == refs[1..][i - 1];
      r
  }

  /** `format_refs`: the marker line, then for every entry in table order the plain
      definition and the backquoted one, sharing destination and title. */
  function FormatRefs(refs: Table<Ref>): (r: seq<string>)
    ensures |r| == 1 + 2 * |refs|
    ensures r[0] == ReferencesMarker
    ensures forall i :: 0 <= i < |refs| ==> r[1 + 2 * i] == PlainDef(refs[i]) && r[2 + 2 * i] == TickedDef(refs[i])
  {
    [ReferencesMarker] + RefLines(refs)
  }

  /** The anchor `collect_refs` builds: `"{type}-{id}"`, dots to dashes, lower-cased. */
  function RefAnchor(kind: string, key: string): (r: string)
    ensures |r| == |kind| + 1 + |key|
  {
    Lower(ReplaceChar(kind + "-" + key, '.', '-'))
  }

  /** Position by position, the anchor is the lowered character of `"{type}-{id}"`, a dot
      having become a dash. */
  lemma RefAnchorChars(kind: string, key: string)
    ensures var r, t := RefAnchor(kind, key), kind + "-" + key;
            forall i :: 0 <= i < |r| ==> r[i] == LowerChar(if t[i] == '.' then '-' else t[i])
  {
  }

  /** The anchor is the lowered type and the lowered id joined by a dash, each with its
      dots turned into dashes; it holds neither a dot nor a capital letter. */
  lemma RefAnchorSpec(kind: string, key: string)
    ensures RefAnchor(kind, key) == Lower(ReplaceChar(kind, '.', '-')) + "-" + Lower(ReplaceChar(key, '.', '-'))
    ensures var r := RefAnchor(kind, key);
            forall i :: 0 <= i < |r| ==> r[i] != '.' && !IsUpper(r[i])
  {
    var r, t := RefAnchor(kind, key), kind + "-" + key;
    var a, b := Lower(ReplaceChar(kind, '.', '-')), Lower(ReplaceChar(key, '.', '-'));
    RefAnchorChars(kind, key);
    forall i | 0 <= i < |r| ensures r[i] == (a + "-" + b)[i] {
      if i < |kind| {
        assert t[i] == kind[i];
      } else if i > |kind| {
        assert t[i] == key[i - |kind| - 1];
      }
    }
  }

  /** The anchor of a method `C.f` of module `M`. */
  lemma RefAnchorExample()
    ensures RefAnchor("Function", "M.C.f") == "function-m-c-f"
  {
    RefAnchorSpec("Function", "M.C.f");
    assert ReplaceChar("Function", '.', '-') == "Function";
    assert ReplaceChar("M.C.f", '.', '-') == "M-C-f";
    assert Lower("Function") == "function";
    assert Lower("M-C-f") == "m-c-f";
  }

  /** The entry of a node under its dotted id: the anchor of the type and id, and a title
      that shows the type and the node's own short name. */
  function RefOf(n: DocNode, key: string): (r: Ref)
    ensures |r.destination| == |n.kind| + 1 + |key|
    ensures r.title == n.kind + " " + n.name
  {
    Ref(RefAnchor(n.kind, key), n.kind + " " + n.name)
  }

  /** The nested `collect` of `collect_refs`: one entry per node, whatever its text. */
  function Collect(n: DocNode, refs: Table<Ref>, prefix: string): Table<Ref>
    decreases n, 1
  {
    var id := prefix + n.name;
    CollectAll(n.content, Put(refs, id, RefOf(n, id)), id + ".")
  }

  function CollectAll(ns: seq<DocNode>, refs: Table<Ref>, prefix: string): Table<Ref>
    decreases ns, 0
  {
    if |ns| == 0 then refs else CollectAll(ns[1..], Collect(ns[0], refs, prefix), prefix)
  }

  function CollectRefs(doc: Document): Table<Ref> {
    CollectAll(doc.content, [], "")
  }

  // ---------------------------------------------------------------------------------------
  // Reference definitions of the output, one per rendered or collected node.

  /** What one rendered node contributes: header with the escaped id, text, separator. */
  function Block(p: Placed<char>, url: Option<string>, fill: Filler): seq<string> {
    [HeaderLine(p.level, p.node.kind, EscapeMarkdown(p.key), p.node.location, url, fill),
     p.node.text.GetOr(""), "\n\n"]
  }

  function Blocks(ps: seq<Placed<char>>, url: Option<string>, fill: Filler): (r: seq<string>)
    ensures |r| == 3 * |ps|
  {
    if |ps| == 0 then [] else Block(ps[0], url, fill) + Blocks(ps[1..], url, fill)
  }

  function RefEntries(ps: seq<Placed<char>>): (r: seq<(string, Ref)>)
    ensures |r| == |ps|
  {
    seq(|ps|, i requires 0 <= i < |ps| => (ps[i].key, RefOf(ps[i].node, ps[i].key)))
  }

  lemma {:induction false} BlocksConcat(a: seq<Placed<char>>, b: seq<Placed<char>>, url: Option<string>, fill: Filler)
    ensures Blocks(a + b, url, fill) == Blocks(a, url, fill) + Blocks(b, url, fill)
  {
    if |a| > 0 {
      assert (a + b)[1..] == a[1..] + b;
      BlocksConcat(a[1..], b, url, fill);
    } else {
      assert a + b == b;
    }
  }

  lemma EscapeDistributes(a: string, b: string)
    ensures EscapeMarkdown(a + b) == EscapeMarkdown(a) + EscapeMarkdown(b)
  {
    EscapedConcat(a, b);
  }

  /** The rendered output of a subtree is the concatenation of one three-piece block per
      node it shows (pre-order, a node without text hiding its subtree), and each header
      shows the node's reference key with its special characters escaped. */
  lemma {:induction false} FormatNodeIsBlocks(n: DocNode, level: int, prefix: string, url: Option<string>, fill: Filler)
    ensures FormatNode(n, level, EscapeMarkdown(prefix), url, fill) == Blocks(Visible(n, level, prefix), url, fill)
    decreases n, 1
  {
    if HasText(n) {
      var id := prefix + n.name;
      EscapeDistributes(prefix, n.name);
      EscapeDistributes(id, ".");
      assert EscapeMarkdown(".") == ".";
      FormatNodesIsBlocks(n.content, level + 1, id + ".", url, fill);
      var p := Placed(n, level, id);
      var rest := VisibleOf(n.content, level + 1, id + ".");
      assert Visible(n, level, prefix) == [p] + rest;
      assert ([p] + rest)[1..] == rest;
    }
  }

  lemma {:induction false} FormatNodesIsBlocks(ns: seq<DocNode>, level: int, prefix: string, url: Option<string>, fill: Filler)
    ensures FormatNodes(ns, level, EscapeMarkdown(prefix), url, fill) == Blocks(VisibleOf(ns, level, prefix), url, fill)
    decreases ns, 0
  {
    if |ns| > 0 {
      FormatNodeIsBlocks(ns[0], level, prefix, url, fill);
      FormatNodesIsBlocks(ns[1..], level, prefix, url, fill);
      BlocksConcat(Visible(ns[0], level, prefix), VisibleOf(ns[1..], level, prefix), url, fill);
    }
  }

  /** A node without text renders nothing, so none of its descendants is rendered; the
      rendered nodes are all of them exactly when every node has text. */
  lemma HiddenSubtree(n: DocNode, level: int, url: Option<string>, fill: Filler)
    ensures !HasText(n) ==> FormatNode(n, level, "", url, fill) == []
    ensures |FormatNode(n, level, "", url, fill)| <= 3 * Size(n)
    ensures |FormatNode(n, level, "", url, fill)| == 3 * Size(n)
            <==> forall p :: p in All(n, level, "") ==> HasText(p.node)
  {
    assert EscapeMarkdown("") == "";
    FormatNodeIsBlocks(n, level, "", url, fill);
    AllSize(n, level, "");
    VisibleIsAllIffTexts(n, level, "");
    if |Visible(n, level, "")| == |All(n, level, "")| {
      VisibleLengthEq(n, level, "");
    }
  }

  lemma RefEntriesConcat(a: seq<Placed<char>>, b: seq<Placed<char>>)
    ensures RefEntries(a + b) == RefEntries(a) + RefEntries(b)
  {
  }

  /** `collect` is assignment of one entry per node of the full pre-order traversal. */
  lemma {:induction false} CollectIsPutAll(n: DocNode, refs: Table<Ref>, prefix: string, level: int)
    ensures Collect(n, refs, prefix) == PutAll(refs, RefEntries(All(n, level, prefix)))
    decreases n, 1
  {
    var id := prefix + n.name;
    var head := RefEntries([Placed(n, level, id)]);
    var tail := RefEntries(AllOf(n.content, level + 1, id + "."));
    CollectAllIsPutAll(n.content, Put(refs, id, RefOf(n, id)), id + ".", level + 1);
    RefEntriesConcat([Placed(n, level, id)], AllOf(n.content, level + 1, id + "."));
    PutAllConcat(refs, head, tail);
    assert PutAll(refs, head) == Put(refs, id, RefOf(n, id)) by {
      assert head[..0] == [];
    }
  }

  lemma {:induction false} CollectAllIsPutAll(ns: seq<DocNode>, refs: Table<Ref>, prefix: string, level: int)
    ensures CollectAll(ns, refs, prefix) == PutAll(refs, RefEntries(AllOf(ns, level, prefix)))
    decreases ns, 0
  {
    if |ns| == 0 {
      assert RefEntries([]) == [];
    } else {
      CollectIsPutAll(ns[0], refs, prefix, level);
      CollectAllIsPutAll(ns[1..], Collect(ns[0], refs, prefix), prefix, level);
      RefEntriesConcat(All(ns[0], level, prefix), AllOf(ns[1..], level, prefix));
      PutAllConcat(refs, RefEntries(All(ns[0], level, prefix)), RefEntries(AllOf(ns[1..], level, prefix)));
    }
  }

  /** `collect_refs` has an entry for every node, with or without text: its keys are the
      dotted ids of the pre-order traversal, each once at its first occurrence, bound to the
      anchor and title of the last node with that id. */
  lemma CollectRefsSemantics(doc: Document)
    ensures var es := RefEntries(AllOf(doc.content, 0, ""));
            && Keys(CollectRefs(doc)) == FirstOccurrences(Keys(es))
            && Distinct(Keys(CollectRefs(doc)))
            && (forall k :: Lookup(CollectRefs(doc), k) == LastValue(es, k))
    ensures forall p :: p in AllOf(doc.content, 0, "") ==> p.key in Keys(CollectRefs(doc))
  {
    var ps := AllOf(doc.content, 0, "");
    var es := RefEntries(ps);
    CollectAllIsPutAll(doc.content, [], "", 0);
    PutAllSemantics(es);
    FirstOccurrencesMembers(Keys(es));
    forall p | p in ps ensures p.key in Keys(CollectRefs(doc)) {
      var i :| 0 <= i < |ps| && ps[i] == p;
      assert Keys(es)[i] == p.key;
    }
  }

  /** One top-level node: its rendered blocks and then one line break, even when the node
      has no text and renders nothing else. */
  lemma FormatTopSingle(n: DocNode, level: int, url: Option<string>, fill: Filler)
    ensures FormatTop([n], level, url, fill) == Blocks(Visible(n, level, ""), url, fill) + ["\n"]
  {
    assert EscapeMarkdown("") == "";
    FormatNodeIsBlocks(n, level, "", url, fill);
    assert [n][1..] == [];
  }

  /** The top-level loop treats the nodes independently, one after another. */
  lemma {:induction false} FormatTopConcat(a: seq<DocNode>, b: seq<DocNode>, level: int, url: Option<string>, fill: Filler)
    ensures FormatTop(a + b, level, url, fill) == FormatTop(a, level, url, fill) + FormatTop(b, level, url, fill)
  {
    if |a| > 0 {
      assert (a + b)[0] == a[0];
      assert (a + b)[1..] == a[1..] + b;
      FormatTopConcat(a[1..], b, level, url, fill);
    } else {
      assert a + b == b;
    }
  }

  lemma {:induction false} FormatTopIsBlocks(ns: seq<DocNode>, level: int, url: Option<string>, fill: Filler)
    ensures |FormatTop(ns, level, url, fill)| == 3 * |VisibleOf(ns, level, "")| + |ns|
  {
    if |ns| > 0 {
      assert EscapeMarkdown("") == "";
      FormatNodeIsBlocks(ns[0], level, "", url, fill);
      FormatTopIsBlocks(ns[1..], level, url, fill);
    }
  }

  /** The whole output: three pieces per rendered node, one `"\n"` per top-level node, then
      the marker and two definitions per distinct dotted id of the tree. */
  lemma FormatLength(doc: Document, level: int, url: Option<string>, fill: Filler)
    ensures |Format(doc, level, url, fill)|
            == 3 * |VisibleOf(doc.content, level, "")| + |doc.content|
               + 1 + 2 * |FirstOccurrences(Keys(RefEntries(AllOf(doc.content, 0, ""))))|
    ensures Format(doc, level, url, fill)[|FormatTop(doc.content, level, url, fill)|] == ReferencesMarker
  {
    FormatTopIsBlocks(doc.content, level, url, fill);
    CollectRefsSemantics(doc);
  }

  /** The dotted id of a path of names, as `prefix + name` builds it. */
  function Dotted(names: seq<string>): string
  {
    if |names| == 0 then ""
    else if |names| == 1 then names[0]
    else Dotted(names[..|names| - 1]) + "." + names[|names| - 1]
  }

  function EscapeAll(names: seq<string>): (r: seq<string>)
    ensures |r| == |names|
  {
    seq(|names|, i requires 0 <= i < |names| => EscapeMarkdown(names[i]))
  }

  lemma {:induction false} DottedEscaped(names: seq<string>)
    ensures Dotted(EscapeAll(names)) == EscapeMarkdown(Dotted(names))
  {
    if |names| > 1 {
      var init := names[..|names| - 1];
      assert EscapeAll(names)[..|names| - 1] == EscapeAll(init);
      DottedEscaped(init);
      EscapeDistributes(Dotted(init), ".");
      EscapeDistributes(Dotted(init) + ".", names[|names| - 1]);
      assert EscapeMarkdown(".") == ".";
    } else if |names| == 0 {
      assert EscapeMarkdown("") == "";
    }
  }

  lemma {:induction false} DottedNoSpecial(names: seq<string>)
    ensures NoSpecial(Dotted(names)) <==> forall i :: 0 <= i < |names| ==> NoSpecial(names[i])
  {
    if |names| > 1 {
      var init := names[..|names| - 1];
      var last := names[|names| - 1];
      DottedNoSpecial(init);
      var a := Dotted(init) + ".";
      var d := a + last;
      assert d == Dotted(names);
      assert NoSpecial(d) <==> NoSpecial(Dotted(init)) && NoSpecial(last) by {
        assert forall i :: 0 <= i < |Dotted(init)| ==> d[i] == Dotted(init)[i];
        assert d[|Dotted(init)|] == '.';
        assert forall i :: 0 <= i < |last| ==> d[|a| + i] == last[i];
        if NoSpecial(Dotted(init)) && NoSpecial(last) {
          forall i | 0 <= i < |d| ensures !IsSpecial(d[i]) {
            if i < |Dotted(init)| {
            } else if i == |Dotted(init)| {
            } else {
              assert d[i] == last[i - |a|];
            }
          }
        }
      }
      if forall i :: 0 <= i < |names| ==> NoSpecial(names[i]) {
        assert forall i :: 0 <= i < |init| ==> NoSpecial(init[i]);
      }
      if NoSpecial(Dotted(init)) && NoSpecial(last) {
        forall i | 0 <= i < |names| ensures NoSpecial(names[i]) {
          if i < |init| {
            assert names[i] == init[i];
          }
        }
      }
    }
  }

  /** Header ids use escaped names while reference keys use the raw ones: along any path
      the header id is the escaped key, and the two are equal exactly when no name on the
      path contains `_`, `*` or a backquote. */
  lemma HeaderIdMatchesKey(names: seq<string>)
    ensures Dotted(EscapeAll(names)) == EscapeMarkdown(Dotted(names))
    ensures Dotted(EscapeAll(names)) == Dotted(names)
            <==> forall i :: 0 <= i < |names| ==> NoSpecial(names[i])
  {
    DottedEscaped(names);
    DottedNoSpecial(names);
  }
}
